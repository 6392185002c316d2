# py3status `clock` module, modelled in Dafny

The py3status `clock` module shows one or more clocks in the i3 status
bar. Its configuration is a list of display slots (`format`), each a
template holding `{timezone}` tokens, and a list of time formats
(`format_time`). The module cycles between slots and between time formats
on mouse clicks, and optionally on a timer (`cycle`). It also tells the
host how long a rendered result may be cached (`cached_until`).

This project models the module's own logic as pure functions over
immutable data, with time in whole seconds:

- `Python` holds the small piece of Python semantics the module relies on.
  It covers floor `//` and `%`, indexing with negative indices, the
  `ZeroDivisionError`/`IndexError` faults as a `Result`, and `in`,
  `str.replace`, `''.join` and `split('/')[-1]` on strings.
- `Braces` parses the pattern `\{([^}]*)\}` as `re.findall` and `re.sub`
  apply it. `Scan` is a leftmost-first parse into plain characters and
  `{...}` spans. The lemmas prove it is the unique canonical parse of its
  input and that it loses nothing.
- `Strftime` holds the refresh-granularity classifier. `Directives` is an
  independent strftime-style tokenizer. The substring tests of `clock.py`
  are proved to decide exactly by the directives outside `{...}` spans.
- `Timezones` is the `_get_timezone` dispatch over a snapshot of the
  timezone database (`TzDatabase`). It also holds the friendly `{name}` of
  a zone.
- `Settings` holds the options, their defaults and the configured
  instance (`Config`).
- `Cycling` is the state machine over (`active`, `active_time_format`,
  `_cycle_time`). It covers `_change_active`, `on_click` and the automatic
  advance at the start of a poll.
- `Clock` covers `post_config_hook`, the per-zone placeholder values, the
  icon index, the cache deadline and one poll (`clock`).

Python faults are values rather than preconditions. `_change_active` with
no slots gives `Failure(ZeroDivisionError)`. Indexing an empty list gives
`Failure(IndexError)`. A negative index reads from the end, as it does in
Python. A poll that raises keeps the state change the cycling check made
before the fault, as the Python object does. The one fault excluded by a
precondition is the `zones[0]` IndexError of `_get_timezone`:
`Timezones.Resolve` requires every country code in the database to list at
least one zone (see "Left out").

Where the module's documentation and its code differ, the model follows
the code:

- The docstring gives 10 as the default `cycle`. The class attribute is 0,
  so cycling is off unless configured.
- An empty `format` or `format_time` list is not replaced by a default.
  `post_config_hook` accepts it. The first poll or click that needs the
  list then raises, and the model returns the corresponding `Failure`.
- A button id of 0 has no special meaning. A button matches an event by
  plain equality.

## Model

| member | source | states |
|---|---|---|
| Python.FloorDiv | py3status/modules/clock.py:220 | Floor division: the quotient is the largest `q` with `q * b <= a` for `b > 0`, and the mirror image for `b < 0`. |
| Python.FloorMod | py3status/modules/clock.py:181 | Python's `%`: `a == b * (a // b) + r` with `r` carrying the sign of `b`. |
| Python.Index | py3status/modules/clock.py:213 | Python's list indexing: in-range and negative indices read the element, anything else is an IndexError. |
| Python.Replace | py3status/modules/clock.py:130 | `str.replace` leaves a string without the pattern unchanged, and keeps its length when pattern and replacement have equal length. |
| Python.ContainsOccurs | py3status/modules/clock.py:131-140 | Python's substring test `pat in s` holds exactly when `pat` occurs in `s` at some position. |
| Python.ReplaceChar | py3status/modules/clock.py:225 | Replacing `_` with a space maps the string character by character. |
| Python.Join | py3status/modules/clock.py:116 | Joining a single part gives that part. |
| Python.JoinAppend | py3status/modules/clock.py:116 | `''.join` concatenates in order with nothing between: joining `a + b` is joining `a` followed by joining `b`. |
| Python.JoinPart | py3status/modules/clock.py:116 | Every slot appears in the joined text, between the join of the slots before it and the join of those after it. |
| Python.LastSegment | py3status/modules/clock.py:225 | `split('/')[-1]` is the longest suffix with no `/`; if it is not the whole string, a `/` comes just before it. |
| Braces.Find | py3status/modules/clock.py:116 | The first occurrence of a character: found exactly when present, with no earlier occurrence. |
| Braces.SpanEnd | py3status/modules/clock.py:116 | A match starts at a `{` exactly when a `}` follows somewhere, and it ends at the first such `}`. |
| Braces.RenderScan | py3status/modules/clock.py:116 | The scan loses nothing: gluing its pieces back gives the input. |
| Braces.ScanCanonical | py3status/modules/clock.py:116 | Every scan is canonical: no span holds `}`, and no unmatched `{` has a `}` after it. |
| Braces.ScanUnique | py3status/modules/clock.py:116 | A canonical piece sequence is the scan of its own text, so the scan is the only canonical parse. |
| Braces.TokensClosed | py3status/modules/clock.py:116-118 | No token found by `findall` contains `}`. |
| Braces.SpanTextsMembers | py3status/modules/clock.py:116-118 | A string is a token exactly when it is the inner text of one of the spans. |
| Braces.StripLeavesNoSpans | py3status/modules/clock.py:129 | After `re.sub` no match is left, and substituting a second time changes nothing. |
| Braces.NoCloseNoSpans | py3status/modules/clock.py:116 | Text with no `}` holds no token and is left unchanged by `re.sub`. |
| Braces.StripPlain | py3status/modules/clock.py:116-129 | An unmatched leading character stays in front of what `re.sub` leaves, and adds no token. |
| Braces.StripSpan | py3status/modules/clock.py:116-129 | A leading `{t}` span is deleted by `re.sub` and listed first by `findall`. |
| Braces.NestedOpenBrace | py3status/modules/clock.py:116 | A token may contain `{`: `{a{b}` gives the one token `a{b`. |
| Braces.StrayCloseBrace | py3status/modules/clock.py:116 | A stray `}` is plain text: `}{Local}` gives the one token `Local`. |
| Braces.UnclosedBrace | py3status/modules/clock.py:116 | A `{` with no `}` after it matches nothing. |
| Strftime.Granularity | py3status/modules/clock.py:128-145 | The refresh granularity of a time format is always 0, 1 or 60 seconds. |
| Strftime.Directives | py3status/modules/clock.py:128-145 | A directive letter read by the tokenizer occurs in the format. |
| Strftime.EscapesVsDirectives | py3status/modules/clock.py:130-142 | With `%%` deleted, `%c` occurs exactly when the tokenizer reads directive `c`, for every `c` other than `%`. |
| Strftime.GranularityByDirectives | py3status/modules/clock.py:128-145 | The granularity is 0 for a `%f` directive outside the spans, otherwise 1 for `%S`, `%c` or `%X`, otherwise 60. |
| Strftime.PlainGranularity | py3status/modules/clock.py:128-145 | For a format with no `}`, the granularity is decided by its directives alone. |
| Strftime.MinuteFormat | py3status/modules/clock.py:143-144 | A format with no `}` and none of the letters `f`, `S`, `c`, `X` refreshes every 60 seconds. |
| Strftime.DirectivesOther | py3status/modules/clock.py:130 | The tokenizer skips a leading character other than `%`. |
| Strftime.DirectivesPercent | py3status/modules/clock.py:130 | The tokenizer reads a `%` and the character after it as one directive. |
| Strftime.EscapedSeconds | py3status/modules/clock.py:130-134 | `%%S` is an escaped percent sign followed by `S`, so it refreshes every 60 seconds. |
| Strftime.OddEscapedSeconds | py3status/modules/clock.py:130-136 | `%%%S` keeps a real `%S`, so it refreshes every second. |
| Strftime.MinutesOnly | py3status/modules/clock.py:143-144 | `%H:%M` refreshes every 60 seconds. |
| Strftime.FractionWins | py3status/modules/clock.py:131-133 | `%f` takes precedence over `%S`: `%f %S` gives 0. |
| Timezones.ByName | py3status/modules/clock.py:174-178 | `pytz.timezone` resolves exactly the names the database knows and gives `?` otherwise. |
| Timezones.Resolve | py3status/modules/clock.py:152-178 | `Local` is the local zone or `?`. Any other two-character token is a country code resolved through its first listed zone, or `?`. Everything else is a zone name, or `?`. |
| Timezones.CountryCodeShadowsName | py3status/modules/clock.py:166-171 | A two-character token is only read as a country code. Adding it as a zone name changes nothing, unless the country's first zone carries that same name. |
| Timezones.UnknownCountry | py3status/modules/clock.py:167-170 | An unknown country code gives `?`. |
| Timezones.FriendlyName | py3status/modules/clock.py:225 | `{name}` has no `/` or `_`. It is the identifier's last segment character by character, with `_` shown as a space. |
| Timezones.LastSegmentAt | py3status/modules/clock.py:225 | The text after a `/` that is followed by no other `/` is the last segment. |
| Timezones.FriendlyNameAt | py3status/modules/clock.py:225 | `{name}` is fully determined by the last segment with `_` mapped to a space. |
| Timezones.BuenosAires | py3status/modules/clock.py:225 | `America/Argentina/Buenos_Aires` shows as `Buenos Aires`. |
| Settings.AsList | py3status/modules/clock.py:109-123 | A single string becomes a one-element list; a list is kept as it is. |
| Cycling.ChangeActive | py3status/modules/clock.py:180-181 | The slot moves by `diff` modulo the slot count, landing in range. With no slots it raises ZeroDivisionError. Nothing else changes. |
| Cycling.NextTimeFormat | py3status/modules/clock.py:193-195 | The time format moves one on and wraps to 0 at the end. Slot and deadline are unchanged. |
| Cycling.OnClick | py3status/modules/clock.py:183-197 | Reset wins over the time-format button, which wins over the format button. Reset sets slot 0 and re-arms the timer without touching the time format. The format button advances the slot modulo the count. Any other button changes nothing. |
| Cycling.AutoAdvance | py3status/modules/clock.py:201-204 | Fires only when `cycle` is non-zero and the timer has run out. It then advances the slot modulo the count and re-arms the timer to `now + cycle`. Otherwise the state is unchanged. |
| Cycling.ClickKeepsInRange | py3status/modules/clock.py:183-197 | Clicks never raise from an in-range state, and they keep both indices in range. |
| Cycling.AdvanceKeepsInRange | py3status/modules/clock.py:201-204 | The automatic advance never raises from an in-range state, and it keeps both indices in range. |
| Cycling.ClicksStep | py3status/modules/clock.py:183-197 | Handling a series of clicks handles the first click, then the rest. |
| Cycling.TimeFormatPresses | py3status/modules/clock.py:192-195 | k presses of the time-format button move k formats on, modulo the count, and change nothing else. |
| Cycling.TimeFormatRoundTrip | py3status/modules/clock.py:192-195 | With M time formats, M presses return to the starting state. |
| Cycling.DivStep | py3status/modules/clock.py:202 | The quotient `e / k` steps up by one exactly when `e` reaches a multiple of `k`. |
| Cycling.EverySecondStep | py3status/modules/clock.py:201-204 | Polling for `count` seconds is polling for `count - 1` seconds and then once more. |
| Cycling.CyclesEveryCycleSeconds | py3status/modules/clock.py:201-204 | Polled once a second, the slot advances once every `cycle` seconds. After `e` seconds it has moved `e / cycle` places and the timer points at the next multiple of `cycle`. |
| Clock.PostConfigHook | py3status/modules/clock.py:107-150 | Both options become lists. A single slot switches cycling off. The table has one key per distinct span in the joined slots, each key free of `}` and mapped to its resolved zone. `multiple_tz` holds exactly when there is more than one key. There is one granularity per time format. Indices start at 0 and the timer at `now + cycle`. `blocks`, `block_hours` and the three button ids pass through unchanged. The token list is the `findall` result over the joined slots, in order. |
| Clock.IconIndex | py3status/modules/clock.py:215-222 | The icon index is the position within the `block_hours` period, scaled to the block count and floored. It lies in `[0, count)`. |
| Clock.ScaleInRange | py3status/modules/clock.py:219-221 | A position within a period, of either sign, scales to a valid block index. |
| Clock.ScaleBelow | py3status/modules/clock.py:220-221 | Scaling a position below the period by `count` and dividing by the period stays below `count`. |
| Clock.DefaultIconAt | py3status/modules/clock.py:215-222 | For the default 24 blocks over 12 hours, the icon index is the quotient the formula gives. |
| Clock.MidnightIcon | py3status/modules/clock.py:215-222 | With the defaults, 00:00 shows the first glyph. |
| Clock.SixOClockIcon | py3status/modules/clock.py:215-222 | With the defaults, 06:00 shows the 13th glyph. |
| Clock.ElevenFiftyNineIcon | py3status/modules/clock.py:215-222 | With the defaults, 11:59 shows the last glyph. |
| Clock.NoonIcon | py3status/modules/clock.py:215-222 | With the defaults, 12:00 starts over at the first glyph. |
| Clock.Icon | py3status/modules/clock.py:215-222 | `{icon}` is the glyph at the icon index. A zero `block_hours` or an empty `blocks` raises. |
| Clock.RenderZone | py3status/modules/clock.py:208-239 | An unresolved zone renders as `?`. A resolved zone reads the active time format (`format_time[active_time_format]`) and gets `timezone`, the friendly `name`, `name_` only when `multiple_tz`, and the glyph of `Icon` exactly when that format mentions `{icon}`. It raises exactly when the index is out of range or the icon is needed and cannot be computed, with the fault Python raises first. |
| Clock.RenderAll | py3status/modules/clock.py:206-239 | Every token in the table is rendered, not only the active slot's. The result has one entry per token, each the zone's rendering. It succeeds when every zone renders. |
| Clock.Timeout | py3status/modules/clock.py:242-247 | For `g > 0` the deadline is strictly after `now`, at most `now + g`, and a multiple of `g`. For `g = 0` it is 0. |
| Clock.TimeoutIsNextBoundary | py3status/modules/clock.py:242-245 | No multiple of `g` lies strictly between `now` and the deadline. |
| Clock.CachedUntil | py3status/modules/clock.py:249-252 | When cycling, the deadline is the earlier of the timeout and the cycle timer. Otherwise it is the timeout. |
| Clock.Poll | py3status/modules/clock.py:199-257 | A poll first applies the automatic advance, and keeps it even when the rest of the poll raises. It succeeds exactly when the advance, every zone, the granularity lookup and the slot lookup succeed. Each token's entry is that zone's rendering, `?` for unresolved ones. The slot is `format[active]`. The deadline is `CachedUntil` of the active granularity: the earlier of the timeout and the cycle timer when cycling, the next granularity boundary otherwise. |
| Clock.RaiseKeepsAdvance | py3status/modules/clock.py:202-222 | With cycling due and `block_hours` zero, a resolved zone under an `{icon}` format raises ZeroDivisionError, yet the slot has moved on and the timer is re-armed, so a poll before the new timer does not advance again. |
| Clock.RenderAllRaises | py3status/modules/clock.py:208-222 | The zone loop stops at the first fault: if every zone that raises raises ZeroDivisionError and one does, the loop raises ZeroDivisionError. |
| Clock.SetupPollable | py3status/modules/clock.py:107-150 | Set up with non-empty lists and usable icon settings, the configuration can be polled and the initial state is in range. |
| Clock.PollKeepsInRange | py3status/modules/clock.py:199-257 | Polling a pollable configuration from an in-range state never raises and stays in range. |
| Clock.SingleSlotNeverCycles | py3status/modules/clock.py:111-113 | With a single slot, cycling is off, and a poll at any later time leaves the state unchanged, even when it raises. |
| Clock.TwoSlotTokens | py3status/modules/clock.py:116 | The slots `{a` and `b}` join into text whose one token is `a + b`, when neither part holds `}`. |
| Clock.TokenAcrossSlots | py3status/modules/clock.py:116 | Slots are joined with no separator, so `["{Europe/", "London}"]` holds the one token `Europe/London` and `multiple_tz` is false. |
| Clock.NamePrefixStrip | py3status/modules/clock.py:101-104 | `re.sub` removes the `{name_}` span from the default `[{name_} ` prefix. |
| Clock.NamePrefixGranularity | py3status/modules/clock.py:101-104 | The default `[{name_} ` prefix does not affect a time format's granularity. |
| Clock.DateTimeDirectives | py3status/modules/clock.py:101 | The only directive in ` ]%c` is `c`. |
| Clock.DefaultDateTimeGranularity | py3status/modules/clock.py:101 | The first default time format, `%c`, refreshes every second. |

## Left out

- The timezone database. `pytz.country_timezones`, `pytz.timezone` and `tzlocal.get_localzone` are a snapshot (`TzDatabase`), not code. Zones are known by their identifier (`zone.zone`).
- Timezones.Resolve: requires `TzDatabase.Consistent`, i.e. every country code pytz knows lists at least one zone. This is because `zones[0]` on an empty list would raise IndexError, and pytz never returns one.
- `tzlocal` failures other than `UnknownTimeZoneError`. These propagate out of the module; the model only has the `?` fallback.
- `datetime.now(zone)`. The zone-local hour and minute are an input (`wall`).
- `self.py3.safe_format` and `t.strftime`, including the `[...]` optional blocks. The model computes the template and the placeholder values handed to them, but does not format them.
- Floating point. Time is whole seconds, so a fractional `now % g` is not reproduced. The icon position is in whole minutes (`hour * 60 + minute`), which agrees with `t.hour + t.minute / 60.` up to float rounding.
- The three `time()` calls in one poll are one `now`.
- The Python 2 `encode` branch and the `__main__` test loop with `sleep`.
- Splitting `format` on `;`. The docstring describes it, but it happens in the host's configuration parser, not in this file.
- Cycling.NextTimeFormat: the wrap is only stated for an in-range `active_time_format`. For a negative one `clock.py` just adds one.
- Cycling.OnClick: the time-format button's result is only stated for an in-range `active_time_format`. For a negative one `clock.py` just adds one.
- Clock.Poll: the arithmetic of the deadline (after `now`, at most `now + g`, a multiple of `g`) is spelled out only for an in-range `active_time_format`. For a negative index the deadline is still stated as `CachedUntil` of the entry Python reads.
