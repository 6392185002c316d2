/**
  The module's configuration: the options a user can set, their defaults,
  and the record `post_config_hook` leaves behind once it has normalised the
  options and built the timezone table.
 */
module Settings {
  import Timezones

  /** An option that may be given as one string or as a list of strings. */
  datatype Setting = Text(text: string) | Texts(texts: seq<string>)

  /** A single string is wrapped into a one-element list. */
  function AsList(s: Setting): (l: seq<string>)
    ensures s.Text? ==> |l| == 1 && l[0] == s.text
    ensures s.Texts? ==> l == s.texts
  {
    match s
    case Text(t) => [t]
    case Texts(ts) => ts
  }

  /** The configuration parameters as the user supplies them. */
  datatype Options = Options(
    blocks: string,
    blockHours: int,
    buttonChangeFormat: int,
    buttonChangeTimeFormat: int,
    buttonReset: int,
    cycle: int,
    format: Setting,
    formatTime: Setting)

  /** The 24 clock-face glyphs, 12:00, 12:30, 1:00, ... 11:30. */
  const ClockBlocks: string := [
    '\U{1F55B}', '\U{1F567}', '\U{1F550}', '\U{1F55C}', '\U{1F551}', '\U{1F55D}',
    '\U{1F552}', '\U{1F55E}', '\U{1F553}', '\U{1F55F}', '\U{1F554}', '\U{1F560}',
    '\U{1F555}', '\U{1F561}', '\U{1F556}', '\U{1F562}', '\U{1F557}', '\U{1F563}',
    '\U{1F558}', '\U{1F564}', '\U{1F559}', '\U{1F565}', '\U{1F55A}', '\U{1F566}']

  const DefaultFormatTimes: seq<string> := [
    "[{name_} ]%c",
    "[{name_} ]%x %X",
    "[{name_} ]%a %H:%M",
    "[{name_} ]{icon}"]

  /** The class attributes' values; cycling is off unless configured. */
  const Defaults := Options(
    blocks := ClockBlocks,
    blockHours := 12,
    buttonChangeFormat := 1,
    buttonChangeTimeFormat := 2,
    buttonReset := 3,
    cycle := 0,
    format := Text("{Local}"),
    formatTime := Texts(DefaultFormatTimes))

  /** Button identifiers; an event matches a button by plain equality. */
  datatype Buttons = Buttons(changeFormat: int, changeTimeFormat: int, reset: int)

  /** The instance after `post_config_hook`: slot and time-format lists,
      the tokens found in the slots in the order the regex meets them,
      the token table, the multi-timezone flag, and one refresh granularity
      per time format. */
  datatype Config = Config(
    blocks: string,
    blockHours: int,
    buttons: Buttons,
    cycle: int,
    formats: seq<string>,
    formatTimes: seq<string>,
    tokens: seq<string>,
    items: map<string, Timezones.Zone>,
    multipleTz: bool,
    timeDeltas: seq<int>)
  {
    /** The table holds an entry for exactly the tokens found. */
    predicate TableComplete() {
      items.Keys == set t | t in tokens
    }

    /** What a poll needs in order not to raise. */
    predicate Pollable() {
      && TableComplete()
      && |formats| > 0
      && |formatTimes| > 0
      && |timeDeltas| == |formatTimes|
      && blockHours != 0
      && |blocks| > 0
    }
  }
}
