/**
  The clock module finds placeholders with the pattern `\{([^}]*)\}`, both
  to collect timezone tokens (re.findall) and to blank them out of a time
  format (re.sub). This module replaces the pattern with an explicit parse:
  `Scan` cuts a string into plain characters and `{...}` spans exactly as the
  leftmost-first regex search does, `Render` glues the pieces back, and
  `Canonical` says which piece sequences the search can produce. Together
  the lemmas below show that `Scan` is the one canonical parse of its input.
 */
module Braces {
  import opened Python

  /** A character the pattern did not match, or a matched `{inner}` span. */
  datatype Piece = Plain(c: char) | Span(inner: string)

  /** Position of the first `c` in `s`, if any (Python's `s.find(c)`). */
  function Find(s: string, c: char): (r: Option<nat>)
    ensures r.Some? ==> r.value < |s| && s[r.value] == c && c !in s[..r.value]
    ensures r.None? <==> c !in s
  {
    if |s| == 0 then None
    else if s[0] == c then Some(0)
    else match Find(s[1..], c)
      case None => None
      case Some(k) => assert s[..k + 1] == [s[0]] + s[1..][..k]; Some(k + 1)
  }

  /** Where the span opened by `s[0]` closes, if `s[0]` opens one: at a `{`
      that has a `}` somewhere after it, the span runs to the first such `}`
      (the class `[^}]*` cannot cross it, but may hold another `{`). */
  function SpanEnd(s: string): (r: Option<nat>)
    requires |s| > 0
    ensures r.Some? ==> s[0] == '{' && r.value + 2 <= |s| && s[r.value + 1] == '}'
                        && '}' !in s[1..r.value + 1]
    ensures r.None? <==> s[0] != '{' || '}' !in s[1..]
  {
    if s[0] != '{' then None
    else match Find(s[1..], '}')
      case None => None
      case Some(k) => assert s[1..k + 1] == s[1..][..k]; Some(k)
  }

  /** The leftmost-first scan: a span where one opens, otherwise the search
      moves one character on. */
  function Scan(s: string): (ps: seq<Piece>)
    decreases |s|
  {
    if |s| == 0 then []
    else match SpanEnd(s)
      case Some(k) => [Span(s[1..k + 1])] + Scan(s[k + 2..])
      case None => [Plain(s[0])] + Scan(s[1..])
  }

  lemma ScanSpanStep(s: string, k: nat)
    requires |s| > 0 && SpanEnd(s) == Some(k)
    ensures Scan(s) == [Span(s[1..k + 1])] + Scan(s[k + 2..])
  {
  }

  lemma ScanPlainStep(s: string)
    requires |s| > 0 && SpanEnd(s) == None
    ensures Scan(s) == [Plain(s[0])] + Scan(s[1..])
  {
  }

  function PieceText(p: Piece): string {
    match p
    case Plain(c) => [c]
    case Span(t) => "{" + t + "}"
  }

  /** The text a sequence of pieces stands for. */
  function Render(ps: seq<Piece>): string {
    if |ps| == 0 then "" else PieceText(ps[0]) + Render(ps[1..])
  }

  lemma RenderCons(p: Piece, ps: seq<Piece>)
    ensures Render([p] + ps) == PieceText(p) + Render(ps)
  {
    assert ([p] + ps)[1..] == ps;
  }

  /** The piece sequences a leftmost-first search of `\{([^}]*)\}` yields:
      no span holds a `}`, and a `{` left unmatched has no `}` anywhere to
      its right. */
  predicate Canonical(ps: seq<Piece>) {
    |ps| == 0 ||
    (&& (match ps[0]
         case Span(t) => '}' !in t
         case Plain(c) => c == '{' ==> '}' !in Render(ps[1..]))
     && Canonical(ps[1..]))
  }

  /** Re.findall's result: the inner texts of the spans, in order. */
  function SpanTexts(ps: seq<Piece>): (ts: seq<string>)
    ensures |ts| <= |ps|
  {
    if |ps| == 0 then []
    else match ps[0]
      case Span(t) => [t] + SpanTexts(ps[1..])
      case Plain(_) => SpanTexts(ps[1..])
  }

  /** Re.sub's result with an empty replacement: the unmatched characters. */
  function PlainText(ps: seq<Piece>): (s: string)
    ensures |s| <= |ps|
  {
    if |ps| == 0 then ""
    else match ps[0]
      case Span(_) => PlainText(ps[1..])
      case Plain(c) => [c] + PlainText(ps[1..])
  }

  /** `re.findall('\{([^}]*)\}', s)`. */
  function Tokens(s: string): seq<string> {
    SpanTexts(Scan(s))
  }

  /** `re.sub('\{([^}]*)\}', '', s)`. */
  function Strip(s: string): string {
    PlainText(Scan(s))
  }

  /** Scanning loses nothing: gluing the pieces back gives the input. */
  lemma {:induction false} RenderScan(s: string)
    ensures Render(Scan(s)) == s
    decreases |s|
  {
    if |s| > 0 {
      match SpanEnd(s)
      case Some(k) =>
        RenderScan(s[k + 2..]);
        RenderSpanStep(s, k);
      case None =>
        RenderScan(s[1..]);
        RenderPlainStep(s);
    }
  }

  lemma RenderSpanStep(s: string, k: nat)
    requires |s| > 0 && SpanEnd(s) == Some(k)
    requires Render(Scan(s[k + 2..])) == s[k + 2..]
    ensures Render(Scan(s)) == s
  {
    var inner, rest := s[1..k + 1], s[k + 2..];
    ScanSpanStep(s, k);
    RenderCons(Span(inner), Scan(rest));
    SplitAround(s, k);
  }

  /** A string whose first character is `{` and whose character `k + 1` is
      `}` is those two braces around the text between them, then the rest. */
  lemma SplitAround(s: string, k: nat)
    requires k + 2 <= |s| && s[0] == '{' && s[k + 1] == '}'
    ensures s == "{" + s[1..k + 1] + "}" + s[k + 2..]
  {
    assert s == s[..1] + s[1..k + 1] + s[k + 1..k + 2] + s[k + 2..];
  }

  lemma RenderPlainStep(s: string)
    requires |s| > 0 && SpanEnd(s) == None
    requires Render(Scan(s[1..])) == s[1..]
    ensures Render(Scan(s)) == s
  {
    ScanPlainStep(s);
    RenderCons(Plain(s[0]), Scan(s[1..]));
    assert s == [s[0]] + s[1..];
  }

  /** Every scan is canonical. */
  lemma {:induction false} ScanCanonical(s: string)
    ensures Canonical(Scan(s))
    decreases |s|
  {
    if |s| > 0 {
      match SpanEnd(s)
      case Some(k) =>
        ScanSpanStep(s, k);
        ScanCanonical(s[k + 2..]);
        assert ([Span(s[1..k + 1])] + Scan(s[k + 2..]))[1..] == Scan(s[k + 2..]);
      case None =>
        ScanPlainStep(s);
        ScanCanonical(s[1..]);
        RenderScan(s[1..]);
        assert ([Plain(s[0])] + Scan(s[1..]))[1..] == Scan(s[1..]);
    }
  }

  /** A canonical piece sequence is the scan of the text it renders, so
      `Scan` is the only canonical parse of any string. */
  lemma {:induction false} ScanUnique(ps: seq<Piece>)
    requires Canonical(ps)
    ensures Scan(Render(ps)) == ps
    decreases |ps|
  {
    if |ps| > 0 {
      var rest := ps[1..];
      ScanUnique(rest);
      assert ps == [ps[0]] + rest;
      RenderCons(ps[0], rest);
      match ps[0]
      case Span(t) =>
        ScanOfSpan(t, Render(rest));
      case Plain(c) =>
        ScanOfPlain(c, Render(rest));
    }
  }

  lemma ScanOfSpan(t: string, rest: string)
    requires '}' !in t
    ensures Scan("{" + t + "}" + rest) == [Span(t)] + Scan(rest)
  {
    var s := "{" + t + "}" + rest;
    assert s[1..|t| + 1] == t;
    assert s[|t| + 1] == '}';
    assert s[|t| + 2..] == rest;
    SpanEndOfSpan(s, t);
    ScanSpanStep(s, |t|);
  }

  lemma ScanOfPlain(c: char, rest: string)
    requires c == '{' ==> '}' !in rest
    ensures Scan([c] + rest) == [Plain(c)] + Scan(rest)
  {
    var s := [c] + rest;
    assert s[1..] == rest;
    ScanPlainStep(s);
  }

  lemma SpanEndOfSpan(s: string, t: string)
    requires |s| >= |t| + 2 && s[0] == '{' && s[1..|t| + 1] == t && s[|t| + 1] == '}'
    requires '}' !in t
    ensures SpanEnd(s) == Some(|t|)
  {
    assert s[1..][|t|] == '}';
  }

  /** A matched token never contains `}`. */
  lemma {:induction false} SpanTextsClosed(ps: seq<Piece>)
    requires Canonical(ps)
    ensures forall t :: t in SpanTexts(ps) ==> '}' !in t
    decreases |ps|
  {
    if |ps| > 0 {
      SpanTextsClosed(ps[1..]);
    }
  }

  lemma TokensClosed(s: string)
    ensures forall t :: t in Tokens(s) ==> '}' !in t
  {
    ScanCanonical(s);
    SpanTextsClosed(Scan(s));
  }

  /** A token is exactly the inner text of some span of the scan. */
  lemma {:induction false} SpanTextsMembers(ps: seq<Piece>, t: string)
    ensures t in SpanTexts(ps) <==> Span(t) in ps
    decreases |ps|
  {
    if |ps| > 0 {
      SpanTextsMembers(ps[1..], t);
      assert ps == [ps[0]] + ps[1..];
    }
  }

  /** The characters left by `PlainText` all occur in the rendered text. */
  lemma {:induction false} PlainTextWithin(ps: seq<Piece>, c: char)
    requires c in PlainText(ps)
    ensures c in Render(ps)
    decreases |ps|
  {
    if |ps| > 0 {
      match ps[0]
      case Span(_) =>
        PlainTextWithin(ps[1..], c);
      case Plain(d) =>
        if c != d {
          PlainTextWithin(ps[1..], c);
        }
    }
  }

  function Plains(s: string): (ps: seq<Piece>)
    ensures |ps| == |s|
  {
    if |s| == 0 then [] else [Plain(s[0])] + Plains(s[1..])
  }

  lemma {:induction false} RenderPlains(s: string)
    ensures Render(Plains(s)) == s
    decreases |s|
  {
    if |s| > 0 {
      RenderPlains(s[1..]);
      assert s == [s[0]] + s[1..];
    }
  }

  lemma {:induction false} SpanTextsPlains(s: string)
    ensures SpanTexts(Plains(s)) == []
    decreases |s|
  {
    if |s| > 0 {
      SpanTextsPlains(s[1..]);
    }
  }

  lemma {:induction false} PlainTextCanonical(ps: seq<Piece>)
    requires Canonical(ps)
    ensures Canonical(Plains(PlainText(ps)))
    decreases |ps|
  {
    if |ps| > 0 {
      PlainTextCanonical(ps[1..]);
      match ps[0]
      case Span(_) =>
      case Plain(c) =>
        var tail := PlainText(ps[1..]);
        assert PlainText(ps) == [c] + tail;
        assert Plains([c] + tail) == [Plain(c)] + Plains(tail);
        assert ([c] + tail)[1..] == tail;
        RenderPlains(tail);
        if c == '{' && '}' in tail {
          PlainTextWithin(ps[1..], '}');
        }
    }
  }

  /** What the substitution leaves contains no further match: blanking out
      the spans a second time changes nothing. */
  lemma StripLeavesNoSpans(s: string)
    ensures Tokens(Strip(s)) == []
    ensures Strip(Strip(s)) == Strip(s)
  {
    var t := Strip(s);
    ScanCanonical(s);
    PlainTextCanonical(Scan(s));
    ScanUnique(Plains(t));
    RenderPlains(t);
    SpanTextsPlains(t);
    PlainTextPlains(t);
  }

  lemma {:induction false} PlainTextPlains(s: string)
    ensures PlainText(Plains(s)) == s
    decreases |s|
  {
    if |s| > 0 {
      PlainTextPlains(s[1..]);
      assert s == [s[0]] + s[1..];
    }
  }

  lemma {:induction false} PlainsCanonical(s: string)
    requires '}' !in s
    ensures Canonical(Plains(s))
    decreases |s|
  {
    if |s| > 0 {
      PlainsCanonical(s[1..]);
      RenderPlains(s[1..]);
      assert Plains(s)[1..] == Plains(s[1..]);
    }
  }

  /** Text without any `}` holds no span at all. */
  lemma NoCloseNoSpans(s: string)
    requires '}' !in s
    ensures Scan(s) == Plains(s)
    ensures Tokens(s) == [] && Strip(s) == s
  {
    PlainsCanonical(s);
    ScanUnique(Plains(s));
    RenderPlains(s);
    SpanTextsPlains(s);
    PlainTextPlains(s);
  }

  /** One unmatched character at the front stays in front. */
  lemma StripPlain(c: char, rest: string)
    requires c == '{' ==> '}' !in rest
    ensures Strip([c] + rest) == [c] + Strip(rest)
    ensures Tokens([c] + rest) == Tokens(rest)
  {
    ScanOfPlain(c, rest);
  }

  /** A span at the front is dropped by re.sub and listed by re.findall. */
  lemma StripSpan(t: string, rest: string)
    requires '}' !in t
    ensures Strip("{" + t + "}" + rest) == Strip(rest)
    ensures Tokens("{" + t + "}" + rest) == [t] + Tokens(rest)
  {
    ScanOfSpan(t, rest);
  }

  /** Examples of the regex behaviour the scan reproduces: a token may
      contain `{`, an unmatched `}` is plain text, and a `{` with no `}`
      after it matches nothing. */
  lemma NestedOpenBrace()
    ensures Tokens("{a{b}") == ["a{b"]
  {
    assert "{a{b}" == "{" + "a{b" + "}" + "";
    StripSpan("a{b", "");
    NoCloseNoSpans("");
  }

  lemma StrayCloseBrace()
    ensures Tokens("}{Local}") == ["Local"]
  {
    assert "}{Local}" == ['}'] + ("{" + "Local" + "}" + "");
    StripPlain('}', "{Local}");
    StripSpan("Local", "");
    NoCloseNoSpans("");
  }

  lemma UnclosedBrace()
    ensures Tokens("{Local") == []
  {
    NoCloseNoSpans("{Local");
  }
}
