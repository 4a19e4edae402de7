/** The `nl2br` template filter (the same in both versions of the board):
    a falsy value gives the empty string; any other text is HTML-escaped and
    then has its line endings replaced by a break marker in three successive
    replace-all passes, `\r\n` first, then `\r`, then `\n`. */
module Sanitizer {
  import opened Common

  /** The characters markupsafe's `escape` rewrites. */
  predicate IsMarkupChar(c: char) {
    c == '&' || c == '<' || c == '>' || c == '"' || c == '\''
  }

  /** Text that can neither open a tag nor close an attribute value. */
  predicate NoRawMarkup(s: string) {
    '<' !in s && '>' !in s && '"' !in s && '\'' !in s
  }

  /** markupsafe's `escape` on one character; every other character, `\r` and
      `\n` included, is kept as it is. */
  function EscapeChar(c: char): (r: string)
    ensures r != [] && NoRawMarkup(r)
    ensures !IsMarkupChar(c) ==> r == [c]
    ensures IsMarkupChar(c) ==> r[0] == '&' && r[|r| - 1] == ';'
    ensures c != '\r' && c != '\n' ==> '\r' !in r && '\n' !in r
  {
    if c == '&' then "&amp;"
    else if c == '<' then "&lt;"
    else if c == '>' then "&gt;"
    else if c == '"' then "&#34;"
    else if c == '\'' then "&#39;"
    else [c]
  }

  /** markupsafe's `escape` on a whole string, one character at a time. */
  function Escape(s: string): (r: string)
    ensures |r| >= |s|
  {
    if s == [] then [] else EscapeChar(s[0]) + Escape(s[1..])
  }

  /** Escaped text holds no raw markup characters, and no line-ending
      character that was not in the input. */
  lemma {:induction false} EscapeIsInert(s: string)
    ensures NoRawMarkup(Escape(s))
    ensures '\r' !in s ==> '\r' !in Escape(s)
    ensures '\n' !in s ==> '\n' !in Escape(s)
    decreases |s|
  {
    if s != [] {
      EscapeIsInert(s[1..]);
    }
  }

  /** Decodes the five entities `escape` produces; the inverse of `Escape`. */
  function Unescape(s: string): (r: string)
    ensures |r| <= |s|
    decreases |s|
  {
    if s == [] then []
    else if s[0] != '&' then [s[0]] + Unescape(s[1..])
    else if StartsWith(s, "&amp;") then "&" + Unescape(s[5..])
    else if StartsWith(s, "&lt;") then "<" + Unescape(s[4..])
    else if StartsWith(s, "&gt;") then ">" + Unescape(s[4..])
    else if StartsWith(s, "&#34;") then "\"" + Unescape(s[5..])
    else if StartsWith(s, "&#39;") then "'" + Unescape(s[5..])
    else "&" + Unescape(s[1..])
  }

  predicate StartsWith(s: string, p: string) {
    |p| <= |s| && s[..|p|] == p
  }

  /** Decoding the escaped form of one character gives that character back. */
  lemma {:induction false} UnescapeEscapeChar(c: char, rest: string)
    ensures Unescape(EscapeChar(c) + rest) == [c] + Unescape(rest)
  {
    var x := EscapeChar(c) + rest;
    if !IsMarkupChar(c) {
      assert x[0] == c && x[1..] == rest;
    } else if c == '&' {
      UnescapeAt("&amp;", '&', rest);
    } else if c == '<' {
      UnescapeAt("&lt;", '<', rest);
    } else if c == '>' {
      UnescapeAt("&gt;", '>', rest);
    } else if c == '"' {
      UnescapeAt("&#34;", '"', rest);
    } else {
      UnescapeAt("&#39;", '\'', rest);
    }
  }

  /** An entity at the front is decoded to its character. */
  lemma {:induction false} UnescapeAt(e: string, c: char, rest: string)
    requires IsMarkupChar(c) && e == EscapeChar(c)
    ensures Unescape(e + rest) == [c] + Unescape(rest)
  {
    var x := e + rest;
    assert x[..|e|] == e && x[|e|..] == rest;
    assert x[0] == '&' && x[1] == e[1] && x[3] == e[3];
  }

  /** Escaping loses nothing: every character of the input can be read back
      from its entity form. */
  lemma {:induction false} UnescapeEscape(s: string)
    ensures Unescape(Escape(s)) == s
  {
    if s != [] {
      UnescapeEscapeChar(s[0], Escape(s[1..]));
      UnescapeEscape(s[1..]);
    }
  }

  /** Python's `str.replace(pat, rep)`: scans from the left and replaces every
      non-overlapping occurrence of `pat`. On a `Markup` receiver markupsafe
      2.x escapes both `pat` and `rep`, and 3.x only `rep`; either way the
      three line-ending patterns escape to themselves, and the caller passes
      the replacement already escaped. */
  function Replace(s: string, pat: string, rep: string): (r: string)
    requires pat != []
    ensures s != [] && rep != [] ==> r != []
    decreases |s|
  {
    if |s| < |pat| then s
    else if s[..|pat|] == pat then rep + Replace(s[|pat|..], pat, rep)
    else [s[0]] + Replace(s[1..], pat, rep)
  }

  /** A character found neither in the input nor in the replacement is not
      in the result. */
  lemma {:induction false} ReplaceAvoids(s: string, pat: string, rep: string, c: char)
    requires pat != [] && c !in s && c !in rep
    ensures c !in Replace(s, pat, rep)
    decreases |s|
  {
    if |s| >= |pat| {
      if s[..|pat|] == pat {
        assert c !in s[|pat|..] by { assert forall d :: d in s[|pat|..] ==> d in s; }
        ReplaceAvoids(s[|pat|..], pat, rep, c);
      } else {
        assert c !in s[1..] by { assert forall d :: d in s[1..] ==> d in s; }
        ReplaceAvoids(s[1..], pat, rep, c);
      }
    }
  }

  /** A prefix that cannot start the pattern passes through unchanged. */
  lemma {:induction false} ReplaceSkips(a: string, b: string, pat: string, rep: string)
    requires pat != [] && pat[0] !in a
    ensures Replace(a + b, pat, rep) == a + Replace(b, pat, rep)
    decreases |a|
  {
    if a == [] {
      assert a + b == b;
    } else {
      var x := a + b;
      assert x[0] == a[0];
      assert x[1..] == a[1..] + b;
      assert pat[0] !in a[1..] by {
        assert forall c :: c in a[1..] ==> c in a;
      }
      ReplaceSkips(a[1..], b, pat, rep);
      if |x| < |pat| {
        assert |b| < |pat|;
      } else {
        assert x[..|pat|] != pat by { assert x[..|pat|][0] == a[0]; }
        calc {
          Replace(x, pat, rep);
          [a[0]] + Replace(a[1..] + b, pat, rep);
          [a[0]] + (a[1..] + Replace(b, pat, rep));
          { assert a == [a[0]] + a[1..]; }
          a + Replace(b, pat, rep);
        }
      }
    }
  }

  /** Replacing a single character works piece by piece. */
  lemma {:induction false} ReplaceCharSplits(a: string, b: string, c: char, rep: string)
    ensures Replace(a + b, [c], rep) == Replace(a, [c], rep) + Replace(b, [c], rep)
    decreases |a|
  {
    if a == [] {
      assert a + b == b;
    } else {
      var x := a + b;
      assert x[..1] == a[..1] && x[1..] == a[1..] + b;
      ReplaceCharSplits(a[1..], b, c, rep);
    }
  }

  /** After replacing a character by text that does not contain it, the
      character is gone. */
  lemma {:induction false} ReplaceRemoves(s: string, c: char, rep: string)
    requires c !in rep
    ensures c !in Replace(s, [c], rep)
    decreases |s|
  {
    if s != [] {
      ReplaceRemoves(s[1..], c, rep);
      if s[..1] != [c] {
        assert s[0] != c;
      }
    }
  }

  /** The three chained passes of the filter, on already escaped text, with a
      replacement text for each pass. */
  function Passes(s: string, crlf: string, cr: string, lf: string): string {
    Replace(Replace(Replace(s, "\r\n", crlf), "\r", cr), "\n", lf)
  }

  /** An independent one-pass reading of "escape, then break lines": each
      character escaped on its own, each `\r\n`, lone `\r` and lone `\n`
      replaced by the text given for its kind. It is the reference the passes
      are proved against, not the model of the filter. */
  function Reading(s: string, crlf: string, cr: string, lf: string): string
    decreases |s|
  {
    if s == [] then []
    else if |s| >= 2 && s[0] == '\r' && s[1] == '\n' then crlf + Reading(s[2..], crlf, cr, lf)
    else if s[0] == '\r' then cr + Reading(s[1..], crlf, cr, lf)
    else if s[0] == '\n' then lf + Reading(s[1..], crlf, cr, lf)
    else EscapeChar(s[0]) + Reading(s[1..], crlf, cr, lf)
  }

  /** The passes on a `\r\n` at the front: the first pass replaces it, the
      other two passes then act on that replacement. */
  lemma {:induction false} PassesCrLf(t: string, m1: string, m2: string, m3: string)
    ensures Passes(Escape("\r\n" + t), m1, m2, m3)
         == Replace(Replace(m1, "\r", m2), "\n", m3) + Passes(Escape(t), m1, m2, m3)
  {
    var e := Escape(t);
    assert ("\r\n" + t)[1..] == "\n" + t && ("\n" + t)[1..] == t;
    assert Escape("\r\n" + t) == "\r\n" + e;
    var x := "\r\n" + e;
    assert x[..2] == "\r\n" && x[2..] == e;
    var y := Replace(e, "\r\n", m1);
    assert Replace(x, "\r\n", m1) == m1 + y;
    ReplaceCharSplits(m1, y, '\r', m2);
    ReplaceCharSplits(Replace(m1, "\r", m2), Replace(y, "\r", m2), '\n', m3);
  }

  /** The passes on a lone `\r` at the front: the second pass replaces it, and
      the last pass then acts on that replacement. */
  lemma {:induction false} PassesLoneCr(t: string, m1: string, m2: string, m3: string)
    requires t == [] || t[0] != '\n'
    ensures Passes(Escape("\r" + t), m1, m2, m3) == Replace(m2, "\n", m3) + Passes(Escape(t), m1, m2, m3)
  {
    var e := Escape(t);
    assert ("\r" + t)[1..] == t;
    assert Escape("\r" + t) == "\r" + e;
    var x := "\r" + e;
    if e != [] {
      assert e[0] == EscapeChar(t[0])[0];
      assert x[..2] != "\r\n" by { assert x[..2][1] == e[0]; }
      assert x[1..] == e;
    }
    var y := Replace(e, "\r\n", m1);
    assert Replace(x, "\r\n", m1) == "\r" + y;
    ReplaceCharSplits("\r", y, '\r', m2);
    ReplaceWhole("\r", m2);
    ReplaceCharSplits(m2, Replace(y, "\r", m2), '\n', m3);
  }

  /** The passes on a `\n` at the front: only the last pass replaces it. */
  lemma {:induction false} PassesLf(t: string, m1: string, m2: string, m3: string)
    ensures Passes(Escape("\n" + t), m1, m2, m3) == m3 + Passes(Escape(t), m1, m2, m3)
  {
    var e := Escape(t);
    assert ("\n" + t)[1..] == t;
    assert Escape("\n" + t) == "\n" + e;
    ReplaceSkips("\n", e, "\r\n", m1);
    var y := Replace(e, "\r\n", m1);
    ReplaceSkips("\n", y, "\r", m2);
    ReplaceCharSplits("\n", Replace(y, "\r", m2), '\n', m3);
    ReplaceWhole("\n", m3);
  }

  /** The passes leave the escaped form of any other character alone. */
  lemma {:induction false} PassesOther(c: char, t: string, m1: string, m2: string, m3: string)
    requires c != '\r' && c != '\n'
    ensures Passes(Escape([c] + t), m1, m2, m3) == EscapeChar(c) + Passes(Escape(t), m1, m2, m3)
  {
    var d := EscapeChar(c);
    var e := Escape(t);
    assert ([c] + t)[1..] == t;
    assert Escape([c] + t) == d + e;
    ReplaceSkips(d, e, "\r\n", m1);
    var y := Replace(e, "\r\n", m1);
    ReplaceSkips(d, y, "\r", m2);
    ReplaceSkips(d, Replace(y, "\r", m2), "\n", m3);
  }

  /** The chained passes over the escaped text agree with the one-pass reading:
      a `\r\n` turns into its own replacement put through the later two passes,
      a lone `\r` into its replacement put through the last pass, and a `\n` that
      came from the input into the last pass's replacement. */
  lemma {:induction false} PassesMatchReading(s: string, m1: string, m2: string, m3: string)
    ensures Passes(Escape(s), m1, m2, m3)
         == Reading(s, Replace(Replace(m1, "\r", m2), "\n", m3), Replace(m2, "\n", m3), m3)
    decreases |s|
  {
    if s == [] {
    } else if |s| >= 2 && s[0] == '\r' && s[1] == '\n' {
      assert s == "\r\n" + s[2..];
      PassesCrLf(s[2..], m1, m2, m3);
      PassesMatchReading(s[2..], m1, m2, m3);
    } else if s[0] == '\r' {
      assert s == "\r" + s[1..];
      PassesLoneCr(s[1..], m1, m2, m3);
      PassesMatchReading(s[1..], m1, m2, m3);
    } else if s[0] == '\n' {
      assert s == "\n" + s[1..];
      PassesLf(s[1..], m1, m2, m3);
      PassesMatchReading(s[1..], m1, m2, m3);
    } else {
      assert s == [s[0]] + s[1..];
      PassesOther(s[0], s[1..], m1, m2, m3);
      PassesMatchReading(s[1..], m1, m2, m3);
    }
  }

  /** The replacement the source text writes. */
  const SourceMarker: string := "<br>\n"

  /** The replacement the filter actually inserts: `escape` returns a `Markup`,
      and `Markup.replace` escapes a plain-`str` argument, so `'<br>\n'`
      arrives as `escape('<br>\n')`. */
  const InsertedMarker: string := "&lt;br&gt;\n"

  /** What a marker must be like for the line-ending laws below. */
  predicate GoodMarker(m: string) {
    m != [] && m[|m| - 1] == '\n' && '\r' !in m
  }

  /** The filter with the break marker as a parameter; `None` and `""` are the
      falsy values. */
  function Nl2brWith(value: Option<string>, marker: string): (r: string)
    ensures !Truthy(value) ==> r == []
    ensures Truthy(value) && marker != [] ==> r != []
  {
    if Truthy(value) then Passes(Escape(value.value), marker, marker, marker) else []
  }

  /** The filter as the board runs it: never absent, empty exactly for a
      falsy value, and free of raw markup and of `\r` whatever the input. */
  function Nl2br(value: Option<string>): (r: string)
    ensures Truthy(value) <==> r != []
    ensures NoRawMarkup(r) && '\r' !in r
  {
    InsertedMarkerIsGood();
    Nl2brIsInert(value, InsertedMarker);
    NoCarriageReturn(value, InsertedMarker);
    Nl2brWith(value, InsertedMarker)
  }

  /** A marker as it comes out of the last pass: each of its `\n` replaced by
      the marker itself. */
  function AfterLastPass(m: string): string {
    Replace(m, "\n", m)
  }

  /** Text in which the pattern cannot start is left unchanged. */
  lemma {:induction false} ReplaceAbsent(s: string, pat: string, rep: string)
    requires pat != [] && pat[0] !in s
    ensures Replace(s, pat, rep) == s
  {
    ReplaceSkips(s, [], pat, rep);
    assert s + [] == s;
  }

  /** The pattern alone becomes the replacement. */
  lemma {:induction false} ReplaceWhole(pat: string, rep: string)
    requires pat != []
    ensures Replace(pat, pat, rep) == rep
  {
    assert pat[..|pat|] == pat && pat[|pat|..] == [];
    assert rep + [] == rep;
  }

  /** The filter is the one-pass reading in which `\r\n` and a lone `\r` both
      become the marker after the last pass and `\n` becomes the marker. */
  lemma {:induction false} Nl2brReading(s: string, m: string)
    requires '\r' !in m
    ensures Nl2brWith(Some(s), m) == Reading(s, AfterLastPass(m), AfterLastPass(m), m)
  {
    if s != [] {
      PassesMatchReading(s, m, m, m);
      ReplaceAbsent(m, "\r", m);
    }
  }

  /** Text without line-ending characters is read as its escaped form. */
  lemma {:induction false} ReadingPlain(a: string, b: string, crlf: string, cr: string, lf: string)
    requires '\r' !in a && '\n' !in a
    ensures Reading(a + b, crlf, cr, lf) == Escape(a) + Reading(b, crlf, cr, lf)
    decreases |a|
  {
    if a == [] {
      assert a + b == b;
    } else {
      var c, rest := a[0], a[1..];
      assert a == [c] + rest;
      assert c != '\r' && c != '\n' by { assert c in a; }
      assert '\r' !in rest && '\n' !in rest by {
        assert forall d :: d in rest ==> d in a;
      }
      assert (a + b)[0] == c && (a + b)[1..] == rest + b;
      ReadingPlain(rest, b, crlf, cr, lf);
      calc {
        Reading(a + b, crlf, cr, lf);
        EscapeChar(c) + Reading(rest + b, crlf, cr, lf);
        EscapeChar(c) + (Escape(rest) + Reading(b, crlf, cr, lf));
        Escape(a) + Reading(b, crlf, cr, lf);
      }
    }
  }

  /** The one-pass reading of a `\r\n`, a lone `\r` and a `\n` at the front. */
  lemma {:induction false} ReadingBreaks(t: string, crlf: string, cr: string, lf: string)
    ensures Reading("\r\n" + t, crlf, cr, lf) == crlf + Reading(t, crlf, cr, lf)
    ensures t == [] || t[0] != '\n' ==> Reading("\r" + t, crlf, cr, lf) == cr + Reading(t, crlf, cr, lf)
    ensures Reading("\n" + t, crlf, cr, lf) == lf + Reading(t, crlf, cr, lf)
  {
    assert ("\r\n" + t)[2..] == t;
    assert ("\r" + t)[1..] == t;
    assert ("\n" + t)[1..] == t;
    if t != [] {
      assert ("\r" + t)[1] == t[0];
    }
  }

  /** Two lines around one line ending, read in one pass. */
  lemma {:induction false} ReadingAround(s: string, brk: string, t: string, crlf: string, cr: string, lf: string)
    requires '\r' !in s && '\n' !in s && '\r' !in t && '\n' !in t
    ensures Reading(s + brk + t, crlf, cr, lf) == Escape(s) + Reading(brk + t, crlf, cr, lf)
    ensures Reading(t, crlf, cr, lf) == Escape(t)
  {
    assert s + brk + t == s + (brk + t);
    ReadingPlain(s, brk + t, crlf, cr, lf);
    ReadingPlain(t, [], crlf, cr, lf);
    assert t + [] == t;
  }

  /** Text with no `\r` and no `\n` comes out exactly escaped. */
  lemma {:induction false} PlainTextIsEscaped(s: string, m: string)
    requires '\r' !in s && '\n' !in s
    ensures Nl2brWith(Some(s), m) == Escape(s)
  {
    if s != [] {
      var e := Escape(s);
      EscapeIsInert(s);
      ReplaceAbsent(e, "\r\n", m);
      ReplaceAbsent(e, "\r", m);
      ReplaceAbsent(e, "\n", m);
    }
  }

  /** The output never holds a `\r`. */
  lemma {:induction false} NoCarriageReturn(value: Option<string>, m: string)
    requires '\r' !in m
    ensures '\r' !in Nl2brWith(value, m)
  {
    if Truthy(value) {
      var y := Replace(Escape(value.value), "\r\n", m);
      ReplaceRemoves(y, '\r', m);
      ReplaceAvoids(Replace(y, "\r", m), "\n", m, '\r');
    }
  }

  /** A lone `\n` between two lines becomes exactly one marker, and both lines
      come out escaped. */
  lemma {:induction false} LineFeedIsOneMarker(s: string, t: string, m: string)
    requires '\r' !in s && '\n' !in s && '\r' !in t && '\n' !in t
    ensures Nl2brWith(Some(s + "\n" + t), m) == Escape(s) + m + Escape(t)
  {
    var crlf, cr := Replace(Replace(m, "\r", m), "\n", m), Replace(m, "\n", m);
    ReadingBreaks(t, crlf, cr, m);
    ReadingAroundBreak(s, "\n", t, crlf, cr, m, m);
    PassesMatchReading(s + "\n" + t, m, m, m);
  }

  /** A `\r\n` between two lines becomes the marker after the last pass: the third pass
      breaks again the `\n` that the first pass put in. */
  lemma {:induction false} CrLfIsMarkerAfterLastPass(s: string, t: string, m: string)
    requires '\r' !in m
    requires '\r' !in s && '\n' !in s && '\r' !in t && '\n' !in t
    ensures Nl2brWith(Some(s + "\r\n" + t), m) == Escape(s) + AfterLastPass(m) + Escape(t)
  {
    var d := AfterLastPass(m);
    ReadingBreaks(t, d, d, m);
    ReadingAroundBreak(s, "\r\n", t, d, d, m, d);
    Nl2brReading(s + "\r\n" + t, m);
  }

  /** A lone `\r` between two lines becomes the marker after the last pass as well. */
  lemma {:induction false} LoneCrIsMarkerAfterLastPass(s: string, t: string, m: string)
    requires '\r' !in m
    requires '\r' !in s && '\n' !in s && '\r' !in t && '\n' !in t
    ensures Nl2brWith(Some(s + "\r" + t), m) == Escape(s) + AfterLastPass(m) + Escape(t)
  {
    var d := AfterLastPass(m);
    assert t == [] || t[0] != '\n' by {
      if t != [] { assert t[0] in t; }
    }
    ReadingBreaks(t, d, d, m);
    ReadingAroundBreak(s, "\r", t, d, d, m, d);
    Nl2brReading(s + "\r" + t, m);
  }

  /** A good marker, after the last pass, is its text before the final `\n` followed by
      the marker: two breaks where the input had one line ending. */
  lemma {:induction false} AfterLastPassIsTwoBreaks(m: string)
    requires GoodMarker(m) && '\n' !in m[..|m| - 1]
    ensures AfterLastPass(m) == m[..|m| - 1] + m
  {
    var p := m[..|m| - 1];
    assert m == p + "\n";
    ReplaceSkips(p, "\n", "\n", m);
    ReplaceWhole("\n", m);
  }

  /** The inserted marker is the escaped form of the one the source writes. */
  lemma {:induction false} InsertedMarkerIsEscaped()
    ensures InsertedMarker == Escape(SourceMarker)
  {
  }

  /** The inserted marker is a good marker without raw markup. */
  lemma {:induction false} InsertedMarkerIsGood()
    ensures GoodMarker(InsertedMarker) && NoRawMarkup(InsertedMarker)
    ensures '\n' !in InsertedMarker[..|InsertedMarker| - 1]
  {
  }

  /** Whatever the user types, the output holds no raw `<`, `>`, `"` or `'`
      when the marker holds none: escaping runs before the substitution. */
  lemma {:induction false} Nl2brIsInert(value: Option<string>, m: string)
    requires NoRawMarkup(m)
    ensures NoRawMarkup(Nl2brWith(value, m))
  {
    if Truthy(value) {
      var e := Escape(value.value);
      EscapeIsInert(value.value);
      var y := Replace(e, "\r\n", m);
      var z := Replace(y, "\r", m);
      ReplaceAvoids(e, "\r\n", m, '<');
      ReplaceAvoids(e, "\r\n", m, '>');
      ReplaceAvoids(e, "\r\n", m, '"');
      ReplaceAvoids(e, "\r\n", m, '\'');
      ReplaceAvoids(y, "\r", m, '<');
      ReplaceAvoids(y, "\r", m, '>');
      ReplaceAvoids(y, "\r", m, '"');
      ReplaceAvoids(y, "\r", m, '\'');
      ReplaceAvoids(z, "\n", m, '<');
      ReplaceAvoids(z, "\n", m, '>');
      ReplaceAvoids(z, "\n", m, '"');
      ReplaceAvoids(z, "\n", m, '\'');
    }
  }

  /** On the board a line break shows as the text `<br>`: the marker arrives
      escaped, so a `\n` between two lines gives no tag at all. */
  lemma {:induction false} BreakShowsAsText(s: string, t: string)
    requires '\r' !in s && '\n' !in s && '\r' !in t && '\n' !in t
    ensures Nl2br(Some(s + "\n" + t)) == Escape(s) + Escape(SourceMarker) + Escape(t)
    ensures '<' !in Nl2br(Some(s + "\n" + t))
  {
    LineFeedIsOneMarker(s, t, InsertedMarker);
    InsertedMarkerIsEscaped();
  }

  /** Escaping works piece by piece. */
  lemma {:induction false} EscapeSplits(a: string, b: string)
    ensures Escape(a + b) == Escape(a) + Escape(b)
    decreases |a|
  {
    if a == [] {
      assert a + b == b;
    } else {
      assert (a + b)[1..] == a[1..] + b;
      assert (a + b)[0] == a[0];
      EscapeSplits(a[1..], b);
    }
  }

  /** Text without markup characters escapes to itself. */
  lemma {:induction false} PlainEscape(s: string)
    requires forall i :: 0 <= i < |s| ==> !IsMarkupChar(s[i])
    ensures Escape(s) == s
    decreases |s|
  {
    if s != [] {
      PlainEscape(s[1..]);
      assert s == [s[0]] + s[1..];
    }
  }

  /** On the board, a `\r\n` between two lines comes out as two markers:
      `"a\r\nb"` becomes `"a&lt;br&gt;&lt;br&gt;\nb"`. */
  lemma {:induction false} CrLfGivesTwoMarkers(s: string, t: string)
    requires '\r' !in s && '\n' !in s && '\r' !in t && '\n' !in t
    ensures Nl2br(Some(s + "\r\n" + t)) == Escape(s) + "&lt;br&gt;" + InsertedMarker + Escape(t)
  {
    InsertedMarkerIsGood();
    CrLfIsMarkerAfterLastPass(s, t, InsertedMarker);
    InsertedMarkerAfterLastPass();
  }

  /** On the board, a lone `\r` between two lines comes out as two markers too. */
  lemma {:induction false} LoneCrGivesTwoMarkers(s: string, t: string)
    requires '\r' !in s && '\n' !in s && '\r' !in t && '\n' !in t
    ensures Nl2br(Some(s + "\r" + t)) == Escape(s) + "&lt;br&gt;" + InsertedMarker + Escape(t)
  {
    InsertedMarkerIsGood();
    LoneCrIsMarkerAfterLastPass(s, t, InsertedMarker);
    InsertedMarkerAfterLastPass();
  }

  /** The board's marker, after the last pass, is two markers. */
  lemma {:induction false} InsertedMarkerAfterLastPass()
    ensures AfterLastPass(InsertedMarker) == "&lt;br&gt;" + InsertedMarker
  {
    InsertedMarkerIsGood();
    AfterLastPassIsTwoBreaks(InsertedMarker);
    assert InsertedMarker[..|InsertedMarker| - 1] == "&lt;br&gt;";
  }

  /** A tag typed by the user comes out as text: `"<script>"` becomes
      `"&lt;script&gt;"`. */
  lemma {:induction false} TagIsText(name: string)
    requires forall i :: 0 <= i < |name| ==> !IsMarkupChar(name[i]) && name[i] != '\r' && name[i] != '\n'
    ensures Nl2br(Some("<" + name + ">")) == "&lt;" + name + "&gt;"
  {
    var s := "<" + name + ">";
    assert '\r' !in s && '\n' !in s by {
      assert forall i :: 0 <= i < |s| ==> s[i] != '\r' && s[i] != '\n' by {
        forall i | 0 <= i < |s| ensures s[i] != '\r' && s[i] != '\n' {
          if 0 < i < |s| - 1 { assert s[i] == name[i - 1]; }
        }
      }
    }
    PlainTextIsEscaped(s, InsertedMarker);
    EscapeSplits("<" + name, ">");
    EscapeSplits("<", name);
    PlainEscape(name);
  }

  /** The filter as evidently intended: one `<br>` tag per line ending. Line
      endings are first brought to `\n` and the tag is then inserted as markup
      (in Python, `.replace('\r\n', '\n').replace('\r', '\n')` followed by
      `.replace('\n', Markup('<br>\n'))`). */
  function Nl2brIntended(value: Option<string>): (r: string)
    ensures !Truthy(value) ==> r == []
    ensures Truthy(value) ==> r != []
  {
    if Truthy(value) then Passes(Escape(value.value), "\n", "\n", SourceMarker) else []
  }

  /** The corrected filter reads every kind of line ending as one tag. */
  lemma {:induction false} OneTagPerLineEnding(s: string)
    ensures Nl2brIntended(Some(s)) == Reading(s, SourceMarker, SourceMarker, SourceMarker)
  {
    if s != [] {
      PassesMatchReading(s, "\n", "\n", SourceMarker);
      ReplaceAbsent("\n", "\r", "\n");
      ReplaceWhole("\n", SourceMarker);
    }
  }

  /** A line ending that the one-pass reading turns into `x`, between two
      lines, gives the escaped lines around `x`. */
  lemma {:induction false} ReadingAroundBreak(s: string, brk: string, t: string,
                                              crlf: string, cr: string, lf: string, x: string)
    requires '\r' !in s && '\n' !in s && '\r' !in t && '\n' !in t
    requires Reading(brk + t, crlf, cr, lf) == x + Reading(t, crlf, cr, lf)
    ensures Reading(s + brk + t, crlf, cr, lf) == Escape(s) + x + Escape(t)
  {
    ReadingAround(s, brk, t, crlf, cr, lf);
  }

  /** With the correction, such a line ending gives one tag. */
  lemma {:induction false} IntendedAround(s: string, brk: string, t: string)
    requires '\r' !in s && '\n' !in s && '\r' !in t && '\n' !in t
    requires Reading(brk + t, SourceMarker, SourceMarker, SourceMarker)
               == SourceMarker + Reading(t, SourceMarker, SourceMarker, SourceMarker)
    ensures Nl2brIntended(Some(s + brk + t)) == Escape(s) + SourceMarker + Escape(t)
  {
    OneTagPerLineEnding(s + brk + t);
    ReadingAroundBreak(s, brk, t, SourceMarker, SourceMarker, SourceMarker, SourceMarker);
  }

  /** With the correction, `\r\n`, a lone `\r` and `\n` between two lines all
      give the same single tag: `"a\r\nb"` becomes `"a<br>\nb"`. */
  lemma {:induction false} IntendedLineEndingsAgree(s: string, t: string)
    requires '\r' !in s && '\n' !in s && '\r' !in t && '\n' !in t
    ensures Nl2brIntended(Some(s + "\r\n" + t)) == Escape(s) + SourceMarker + Escape(t)
    ensures Nl2brIntended(Some(s + "\r" + t)) == Escape(s) + SourceMarker + Escape(t)
    ensures Nl2brIntended(Some(s + "\n" + t)) == Escape(s) + SourceMarker + Escape(t)
  {
    var mk := SourceMarker;
    assert t == [] || t[0] != '\n' by {
      if t != [] { assert t[0] in t; }
    }
    ReadingBreaks(t, mk, mk, mk);
    IntendedAround(s, "\r\n", t);
    IntendedAround(s, "\r", t);
    IntendedAround(s, "\n", t);
  }
}
