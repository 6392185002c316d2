/**
  How often a time format has to be re-rendered. The module blanks out
  `{placeholder}` spans, deletes every `%%`, and then looks for the
  substrings `%f`, `%S`, `%c` and `%X` in that order. `Directives` is an
  independent reading of a format — the directives a strftime-style
  tokenizer sees — and `GranularityByDirectives` shows that the substring
  tests decide exactly by those directives.
 */
module Strftime {
  import opened Python
  import Braces

  /** Refresh granularity in seconds: 0 (sub-second, never cache), 1 or 60. */
  function Granularity(format: string): (g: int)
    ensures g in {0, 1, 60}
  {
    var kept := Replace(Braces.Strip(format), "%%", "");
    if Contains(kept, "%f") then 0
    else if Contains(kept, "%S") then 1
    else if Contains(kept, "%c") then 1
    else if Contains(kept, "%X") then 1
    else 60
  }

  /** The directive letters a strftime-style tokenizer reads, left to right:
      a `%` and the character after it form one directive (`%%` being the
      escaped percent sign); a `%` at the very end reads as nothing. */
  function Directives(s: string): (d: set<char>)
    ensures forall c :: c in d ==> c in s
    decreases |s|
  {
    if |s| < 2 then {}
    else if s[0] == '%' then {s[1]} + Directives(s[2..])
    else Directives(s[1..])
  }

  /** The classification `clock.py` intends, stated over directives. */
  function ByDirectives(d: set<char>): int {
    if 'f' in d then 0
    else if 'S' in d || 'c' in d || 'X' in d then 1
    else 60
  }

  lemma ContainsPair(x: char, r: string, a: char, b: char)
    ensures Contains([x] + r, [a, b]) <==>
            (|r| > 0 && x == a && r[0] == b) || Contains(r, [a, b])
  {
    var s := [x] + r;
    assert s[1..] == r;
    if |r| > 0 {
      assert s[..2] == [x, r[0]];
    }
  }

  lemma ReplaceEscape(t: string)
    ensures Replace("%%" + t, "%%", "") == Replace(t, "%%", "")
  {
    var s := "%%" + t;
    assert s[..2] == "%%";
    assert s[2..] == t;
  }

  lemma ReplaceOther(x: char, t: string)
    requires x != '%'
    ensures Replace([x] + t, "%%", "") == [x] + Replace(t, "%%", "")
  {
    var s := [x] + t;
    assert s[1..] == t;
    if |s| >= 2 {
      assert s[..2] != "%%" by { assert s[0] == x; }
    }
  }

  lemma ReplacePercent(d: char, t: string)
    requires d != '%'
    ensures Replace(['%', d] + t, "%%", "") == ['%', d] + Replace(t, "%%", "")
  {
    var s := ['%', d] + t;
    assert s[..2] != "%%" by { assert s[1] == d; }
    assert s[1..] == [d] + t;
    ReplaceOther(d, t);
  }

  /** With `%%` deleted, `%c` occurs for a letter `c` other than `%` exactly
      when the tokenizer reads the directive `c`: deletion and tokenizing
      walk the format in step, so no `%c` is lost or made up. */
  lemma {:induction false} EscapesVsDirectives(s: string, c: char)
    requires c != '%'
    ensures Contains(Replace(s, "%%", ""), ['%', c]) <==> c in Directives(s)
    decreases |s|
  {
    var k := Replace(s, "%%", "");
    if |s| == 0 {
    } else if |s| == 1 {
      assert k == s;
    } else if s[0] == '%' && s[1] == '%' {
      assert s == "%%" + s[2..];
      ReplaceEscape(s[2..]);
      EscapesVsDirectives(s[2..], c);
    } else if s[0] == '%' {
      assert s == ['%', s[1]] + s[2..];
      ReplacePercent(s[1], s[2..]);
      var kt := Replace(s[2..], "%%", "");
      EscapesVsDirectives(s[2..], c);
      ContainsPair('%', [s[1]] + kt, '%', c);
      ContainsPair(s[1], kt, '%', c);
    } else {
      assert s == [s[0]] + s[1..];
      ReplaceOther(s[0], s[1..]);
      EscapesVsDirectives(s[1..], c);
      ContainsPair(s[0], Replace(s[1..], "%%", ""), '%', c);
    }
  }

  /** The granularity is the one the directives outside `{...}` spans ask
      for: `%f` gives 0, otherwise `%S`, `%c` or `%X` give 1, otherwise 60. */
  lemma GranularityByDirectives(format: string)
    ensures Granularity(format) == ByDirectives(Directives(Braces.Strip(format)))
  {
    var stripped := Braces.Strip(format);
    EscapesVsDirectives(stripped, 'f');
    EscapesVsDirectives(stripped, 'S');
    EscapesVsDirectives(stripped, 'c');
    EscapesVsDirectives(stripped, 'X');
  }

  /** Granularity of a format with no `}`, read off its directives. */
  lemma PlainGranularity(format: string)
    requires '}' !in format
    ensures Granularity(format) == ByDirectives(Directives(format))
  {
    Braces.NoCloseNoSpans(format);
    GranularityByDirectives(format);
  }

  /** Escaped percent signs do not count, an odd run of them does. */
  lemma EscapedSeconds()
    ensures Granularity("%%S") == 60
  {
    PlainGranularity("%%S");
    assert "%%S"[2..] == "S";
    assert Directives("%%S") == {'%'};
  }

  lemma OddEscapedSeconds()
    ensures Granularity("%%%S") == 1
  {
    PlainGranularity("%%%S");
    assert "%%%S"[2..] == "%S";
    assert "%S"[2..] == "";
    assert Directives("%%%S") == {'%', 'S'};
  }

  /** A format with no `}` and none of the letters `f`, `S`, `c`, `X`
      refreshes every minute. */
  lemma MinuteFormat(f: string)
    requires '}' !in f && 'f' !in f && 'S' !in f && 'c' !in f && 'X' !in f
    ensures Granularity(f) == 60
  {
    PlainGranularity(f);
  }

  lemma MinutesOnly()
    ensures Granularity("%H:%M") == 60
  {
    MinuteFormat("%H:%M");
  }

  lemma FractionWins()
    ensures Granularity("%f %S") == 0
  {
    PlainGranularity("%f %S");
    assert "%f %S"[2..] == " %S";
    assert " %S"[1..] == "%S";
    assert "%S"[2..] == "";
    assert Directives("%f %S") == {'f', 'S'};
  }

  /** A character other than `%` is skipped by the tokenizer. */
  lemma DirectivesOther(x: char, t: string)
    requires x != '%'
    ensures Directives([x] + t) == Directives(t)
  {
    assert ([x] + t)[1..] == t;
  }

  /** A `%` and the character after it are read as one directive. */
  lemma DirectivesPercent(d: char, t: string)
    ensures Directives(['%', d] + t) == {d} + Directives(t)
  {
    assert (['%', d] + t)[2..] == t;
  }
}
