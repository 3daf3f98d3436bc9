/** HTML escaping of interpolated text (`escapeHtml`): five global
    replacements applied one after another, `&` first, so that the
    entities introduced by the later passes are not escaped again. */
module Escape {

  /** `s.replace(/c/g, rep)` for a single character `c`. */
  function ReplaceAll(s: string, c: char, rep: string): string
  {
    if s == [] then []
    else (if s[0] == c then rep else [s[0]]) + ReplaceAll(s[1..], c, rep)
  }

  /** `escapeHtml`: the five passes in the order the page script runs them. */
  function EscapeHtml(s: string): string
  {
    var amp := ReplaceAll(s, '&', "&amp;");
    var lt := ReplaceAll(amp, '<', "&lt;");
    var gt := ReplaceAll(lt, '>', "&gt;");
    var quot := ReplaceAll(gt, '"', "&quot;");
    ReplaceAll(quot, '\'', "&#039;")
  }

  /** The five characters the escaping rewrites. */
  predicate IsSpecial(c: char)
  {
    c == '&' || c == '<' || c == '>' || c == '"' || c == '\''
  }

  /** The replacement text of one character, all passes taken together. */
  function EscapeChar(c: char): string
  {
    match c
    case '&' => "&amp;"
    case '<' => "&lt;"
    case '>' => "&gt;"
    case '"' => "&quot;"
    case '\'' => "&#039;"
    case _ => [c]
  }

  /** A reference definition: every character replaced by its escape in a
      single left-to-right pass. */
  function EscapeEach(s: string): string
  {
    if s == [] then [] else EscapeChar(s[0]) + EscapeEach(s[1..])
  }

  /** `e` occurs in `s` at position `i`. */
  predicate StartsAt(s: string, i: int, e: string)
  {
    0 <= i && i + |e| <= |s| && s[i..i + |e|] == e
  }

  /** One of the five entities the escaping produces begins at `i`. */
  predicate EntityAt(s: string, i: int)
  {
    || StartsAt(s, i, "&amp;") || StartsAt(s, i, "&lt;") || StartsAt(s, i, "&gt;")
    || StartsAt(s, i, "&quot;") || StartsAt(s, i, "&#039;")
  }

  /** Text that is safe to interpolate: no raw markup characters, and every
      ampersand begins an entity. */
  predicate Inert(s: string)
  {
    && (forall i :: 0 <= i < |s| ==> s[i] != '<' && s[i] != '>' && s[i] != '"' && s[i] != '\'')
    && (forall i :: 0 <= i < |s| && s[i] == '&' ==> EntityAt(s, i))
  }

  /** Replacing a character that does not occur changes nothing. */
  lemma {:induction false} ReplaceAllAbsent(s: string, c: char, rep: string)
    requires c !in s
    ensures ReplaceAll(s, c, rep) == s
  {
    if s != [] {
      ReplaceAllAbsent(s[1..], c, rep);
    }
  }

  /** Replacement works piecewise on a concatenation. */
  lemma {:induction false} ReplaceAllConcat(a: string, b: string, c: char, rep: string)
    ensures ReplaceAll(a + b, c, rep) == ReplaceAll(a, c, rep) + ReplaceAll(b, c, rep)
  {
    if a != [] {
      assert (a + b)[0] == a[0];
      assert (a + b)[1..] == a[1..] + b;
      ReplaceAllConcat(a[1..], b, c, rep);
      var h := if a[0] == c then rep else [a[0]];
      calc {
        ReplaceAll(a + b, c, rep);
        h + ReplaceAll(a[1..] + b, c, rep);
        h + (ReplaceAll(a[1..], c, rep) + ReplaceAll(b, c, rep));
        (h + ReplaceAll(a[1..], c, rep)) + ReplaceAll(b, c, rep);
      }
    } else {
      assert a + b == b;
    }
  }

  /** The five passes work piecewise on a concatenation. */
  lemma EscapeHtmlConcat(a: string, b: string)
    ensures EscapeHtml(a + b) == EscapeHtml(a) + EscapeHtml(b)
  {
    var a1, b1 := ReplaceAll(a, '&', "&amp;"), ReplaceAll(b, '&', "&amp;");
    ReplaceAllConcat(a, b, '&', "&amp;");
    var a2, b2 := ReplaceAll(a1, '<', "&lt;"), ReplaceAll(b1, '<', "&lt;");
    ReplaceAllConcat(a1, b1, '<', "&lt;");
    var a3, b3 := ReplaceAll(a2, '>', "&gt;"), ReplaceAll(b2, '>', "&gt;");
    ReplaceAllConcat(a2, b2, '>', "&gt;");
    var a4, b4 := ReplaceAll(a3, '"', "&quot;"), ReplaceAll(b3, '"', "&quot;");
    ReplaceAllConcat(a3, b3, '"', "&quot;");
    ReplaceAllConcat(a4, b4, '\'', "&#039;");
  }

  /** Replacement on a one-character string. */
  lemma ReplaceAllSingle(d: char, c: char, rep: string)
    ensures ReplaceAll([d], c, rep) == if d == c then rep else [d]
  {
    assert [d][1..] == [];
  }

  /** On a single character the five passes produce its escape: the later
      passes never touch what the earlier ones introduced. */
  lemma EscapeHtmlChar(c: char)
    ensures EscapeHtml([c]) == EscapeChar(c)
  {
    if c == '&' {
      EscapeAmpersand();
    } else if IsSpecial(c) {
      EscapeMarkup(c);
    } else {
      EscapeHtmlPlain([c]);
    }
  }

  lemma EscapeAmpersand()
    ensures EscapeHtml("&") == "&amp;"
  {
    ReplaceAllSingle('&', '&', "&amp;");
    EscapeLaterPasses("&amp;");
  }

  /** Passes two to five leave text without `<`, `>`, `"`, `'` alone. */
  lemma EscapeLaterPasses(s: string)
    requires '<' !in s && '>' !in s && '"' !in s && '\'' !in s
    ensures ReplaceAll(ReplaceAll(ReplaceAll(ReplaceAll(s, '<', "&lt;"), '>', "&gt;"), '"', "&quot;"), '\'', "&#039;") == s
  {
    ReplaceAllAbsent(s, '<', "&lt;");
    ReplaceAllAbsent(s, '>', "&gt;");
    ReplaceAllAbsent(s, '"', "&quot;");
    ReplaceAllAbsent(s, '\'', "&#039;");
  }

  lemma EscapeMarkup(c: char)
    requires IsSpecial(c) && c != '&'
    ensures EscapeHtml([c]) == EscapeChar(c)
  {
    ReplaceAllSingle(c, '&', "&amp;");
    var p1 := ReplaceAll([c], '&', "&amp;");
    assert p1 == [c];
    ReplaceAllSingle(c, '<', "&lt;");
    var p2 := ReplaceAll(p1, '<', "&lt;");
    if c == '<' {
      assert p2 == "&lt;";
      EscapeLaterPasses2(p2);
    } else {
      assert p2 == [c];
      ReplaceAllSingle(c, '>', "&gt;");
      var p3 := ReplaceAll(p2, '>', "&gt;");
      if c == '>' {
        EscapeLaterPasses3(p3);
      } else {
        assert p3 == [c];
        ReplaceAllSingle(c, '"', "&quot;");
        var p4 := ReplaceAll(p3, '"', "&quot;");
        if c == '"' {
          ReplaceAllAbsent(p4, '\'', "&#039;");
        } else {
          assert p4 == [c];
          ReplaceAllSingle(c, '\'', "&#039;");
        }
      }
    }
  }

  lemma EscapeLaterPasses2(s: string)
    requires '>' !in s && '"' !in s && '\'' !in s
    ensures ReplaceAll(ReplaceAll(ReplaceAll(s, '>', "&gt;"), '"', "&quot;"), '\'', "&#039;") == s
  {
    ReplaceAllAbsent(s, '>', "&gt;");
    ReplaceAllAbsent(s, '"', "&quot;");
    ReplaceAllAbsent(s, '\'', "&#039;");
  }

  lemma EscapeLaterPasses3(s: string)
    requires '"' !in s && '\'' !in s
    ensures ReplaceAll(ReplaceAll(s, '"', "&quot;"), '\'', "&#039;") == s
  {
    ReplaceAllAbsent(s, '"', "&quot;");
    ReplaceAllAbsent(s, '\'', "&#039;");
  }

  /** The five sequential passes equal the single-pass reference. */
  lemma {:induction false} EscapeHtmlIsPerChar(s: string)
    ensures EscapeHtml(s) == EscapeEach(s)
  {
    if s != [] {
      assert s == [s[0]] + s[1..];
      EscapeHtmlConcat([s[0]], s[1..]);
      EscapeHtmlChar(s[0]);
      EscapeHtmlIsPerChar(s[1..]);
    }
  }

  /** A string with none of the five characters is returned unchanged. */
  lemma EscapeHtmlPlain(s: string)
    requires forall i :: 0 <= i < |s| ==> !IsSpecial(s[i])
    ensures EscapeHtml(s) == s
  {
    ReplaceAllAbsent(s, '&', "&amp;");
    ReplaceAllAbsent(s, '<', "&lt;");
    ReplaceAllAbsent(s, '>', "&gt;");
    ReplaceAllAbsent(s, '"', "&quot;");
    ReplaceAllAbsent(s, '\'', "&#039;");
  }

  /** Escaped text is inert: no raw `<`, `>`, `"` or `'`, and every `&`
      begins one of the five entities. */
  lemma EscapeHtmlInert(s: string)
    ensures Inert(EscapeHtml(s))
  {
    EscapeHtmlIsPerChar(s);
    EscapeEachInert(s);
  }

  lemma {:induction false} EscapeEachInert(s: string)
    ensures Inert(EscapeEach(s))
  {
    if s != [] {
      EscapeEachInert(s[1..]);
      EscapeCharInert(s[0]);
      InertConcat(EscapeChar(s[0]), EscapeEach(s[1..]));
    }
  }

  /** Each single escape is inert. */
  lemma EscapeCharInert(c: char)
    ensures Inert(EscapeChar(c))
  {
    var e := EscapeChar(c);
    if IsSpecial(c) {
      EntityInert(e);
    }
  }

  /** Each of the five entities is inert on its own. */
  lemma EntityInert(e: string)
    requires e == "&amp;" || e == "&lt;" || e == "&gt;" || e == "&quot;" || e == "&#039;"
    ensures Inert(e)
  {
    assert StartsAt(e, 0, e);
    forall i | 0 < i < |e|
      ensures e[i] != '&'
    {
    }
  }

  /** Inert text followed by inert text is inert. */
  lemma InertConcat(e: string, t: string)
    requires Inert(e) && Inert(t)
    ensures Inert(e + t)
  {
    var s := e + t;
    forall i | 0 <= i < |s|
      ensures s[i] != '<' && s[i] != '>' && s[i] != '"' && s[i] != '\''
    {
      if i >= |e| {
        assert s[i] == t[i - |e|];
      }
    }
    forall i | 0 <= i < |s| && s[i] == '&'
      ensures EntityAt(s, i)
    {
      AmpersandInConcat(e, t, i);
    }
  }

  /** An ampersand of `e + t` begins an entity, for inert `e` and `t`. */
  lemma AmpersandInConcat(e: string, t: string, i: int)
    requires Inert(e) && Inert(t) && 0 <= i < |e + t| && (e + t)[i] == '&'
    ensures EntityAt(e + t, i)
  {
    if i < |e| {
      assert e[i] == '&';
      StartsAtExtend(e, t, i);
    } else {
      assert t[i - |e|] == '&';
      StartsAtShift(e, t, i - |e|);
    }
  }

  /** An occurrence in `e` is still one in `e + t`. */
  lemma StartsAtExtend(e: string, t: string, j: int)
    requires 0 <= j
    ensures forall x :: StartsAt(e, j, x) ==> StartsAt(e + t, j, x)
  {
    forall x | StartsAt(e, j, x) ensures StartsAt(e + t, j, x) {
      assert (e + t)[j..j + |x|] == e[j..j + |x|];
    }
  }

  /** An occurrence in `t` is an occurrence in `e + t`, shifted by `|e|`. */
  lemma StartsAtShift(e: string, t: string, j: int)
    requires 0 <= j
    ensures forall x :: StartsAt(t, j, x) ==> StartsAt(e + t, |e| + j, x)
  {
    forall x | StartsAt(t, j, x) ensures StartsAt(e + t, |e| + j, x) {
      assert (e + t)[|e| + j..|e| + j + |x|] == t[j..j + |x|];
    }
  }

  /** Reads entities back into the characters they stand for. */
  function Unescape(s: string): string
    decreases |s|
  {
    if s == [] then []
    else if StartsAt(s, 0, "&amp;") then "&" + Unescape(s[5..])
    else if StartsAt(s, 0, "&lt;") then "<" + Unescape(s[4..])
    else if StartsAt(s, 0, "&gt;") then ">" + Unescape(s[4..])
    else if StartsAt(s, 0, "&quot;") then "\"" + Unescape(s[6..])
    else if StartsAt(s, 0, "&#039;") then "'" + Unescape(s[6..])
    else [s[0]] + Unescape(s[1..])
  }

  /** Unescaping undoes one character's escape. */
  lemma UnescapeEscapeChar(c: char, t: string)
    ensures Unescape(EscapeChar(c) + t) == [c] + Unescape(t)
  {
    if c == '&' {
      UnescapeAmp(t);
    } else if c == '<' {
      UnescapeLt(t);
    } else if c == '>' {
      UnescapeGt(t);
    } else if c == '"' {
      UnescapeQuot(t);
    } else if c == '\'' {
      UnescapeApos(t);
    } else {
      var s := [c] + t;
      assert s[0] == c && s[1..] == t;
      assert !StartsAt(s, 0, "&amp;") && !StartsAt(s, 0, "&lt;") && !StartsAt(s, 0, "&gt;");
      assert !StartsAt(s, 0, "&quot;") && !StartsAt(s, 0, "&#039;");
    }
  }

  lemma UnescapeAmp(t: string)
    ensures Unescape("&amp;" + t) == "&" + Unescape(t)
  {
    var s := "&amp;" + t;
    assert s[..5] == "&amp;" && s[5..] == t;
  }

  lemma UnescapeLt(t: string)
    ensures Unescape("&lt;" + t) == "<" + Unescape(t)
  {
    var s := "&lt;" + t;
    assert s[1] == 'l';
    assert !StartsAt(s, 0, "&amp;");
    assert s[..4] == "&lt;" && s[4..] == t;
  }

  lemma UnescapeGt(t: string)
    ensures Unescape("&gt;" + t) == ">" + Unescape(t)
  {
    var s := "&gt;" + t;
    assert s[1] == 'g';
    assert !StartsAt(s, 0, "&amp;") && !StartsAt(s, 0, "&lt;");
    assert s[..4] == "&gt;" && s[4..] == t;
  }

  lemma UnescapeQuot(t: string)
    ensures Unescape("&quot;" + t) == "\"" + Unescape(t)
  {
    var s := "&quot;" + t;
    assert s[1] == 'q';
    assert !StartsAt(s, 0, "&amp;") && !StartsAt(s, 0, "&lt;") && !StartsAt(s, 0, "&gt;");
    assert s[..6] == "&quot;" && s[6..] == t;
  }

  lemma UnescapeApos(t: string)
    ensures Unescape("&#039;" + t) == "'" + Unescape(t)
  {
    var s := "&#039;" + t;
    assert s[1] == '#';
    assert !StartsAt(s, 0, "&amp;") && !StartsAt(s, 0, "&lt;") && !StartsAt(s, 0, "&gt;");
    assert !StartsAt(s, 0, "&quot;");
    assert s[..6] == "&#039;" && s[6..] == t;
  }

  /** Escaping loses nothing: the original text is recovered from it. */
  lemma {:induction false} UnescapeEscapeHtml(s: string)
    ensures Unescape(EscapeHtml(s)) == s
  {
    EscapeHtmlIsPerChar(s);
    UnescapeEscapeEach(s);
  }

  lemma {:induction false} UnescapeEscapeEach(s: string)
    ensures Unescape(EscapeEach(s)) == s
  {
    if s != [] {
      UnescapeEscapeChar(s[0], EscapeEach(s[1..]));
      UnescapeEscapeEach(s[1..]);
      assert s == [s[0]] + s[1..];
    }
  }
}
