/**
 * `escapeHtml` (blog/public/blog.js:143-150): five global replacements applied
 * in sequence, `&` first. The post's title, author, category and content go
 * through it before they are placed into `innerHTML`.
 */
module HtmlEscape {

  /** `s.replace(/c/g, rep)` for a pattern that is a single character. */
  function ReplaceAll(s: string, c: char, rep: string): string
  {
    if s == [] then []
    else (if s[0] == c then rep else [s[0]]) + ReplaceAll(s[1..], c, rep)
  }

  /** The function as written: the chain of replacements. */
  function EscapeHtml(text: string): string
  {
    ReplaceAll(
      ReplaceAll(
        ReplaceAll(
          ReplaceAll(
            ReplaceAll(text, '&', "&amp;"),
            '<', "&lt;"),
          '>', "&gt;"),
        '"', "&quot;"),
      '\'', "&#039;")
  }

  /** The five characters the function rewrites. */
  predicate IsSpecial(c: char)
  {
    c == '&' || c == '<' || c == '>' || c == '"' || c == '\''
  }

  /** The character-by-character reading of the function: each special becomes one entity. */
  function EscapeChar(c: char): string
  {
    if c == '&' then "&amp;"
    else if c == '<' then "&lt;"
    else if c == '>' then "&gt;"
    else if c == '"' then "&quot;"
    else if c == '\'' then "&#039;"
    else [c]
  }

  function EscapeEach(s: string): string
  {
    if s == [] then [] else EscapeChar(s[0]) + EscapeEach(s[1..])
  }

  lemma {:induction false} ReplaceAllAppend(a: string, b: string, c: char, rep: string)
    ensures ReplaceAll(a + b, c, rep) == ReplaceAll(a, c, rep) + ReplaceAll(b, c, rep)
  {
    if a == [] {
      assert a + b == b;
    } else {
      assert (a + b)[0] == a[0] && (a + b)[1..] == a[1..] + b;
      ReplaceAllAppend(a[1..], b, c, rep);
    }
  }

  lemma {:induction false} ReplaceAllAbsent(s: string, c: char, rep: string)
    requires c !in s
    ensures ReplaceAll(s, c, rep) == s
  {
    if s != [] {
      assert s == [s[0]] + s[1..];
      ReplaceAllAbsent(s[1..], c, rep);
    }
  }

  /** Escaping a string is escaping its two halves separately and joining them. */
  lemma EscapeHtmlAppend(a: string, b: string)
    ensures EscapeHtml(a + b) == EscapeHtml(a) + EscapeHtml(b)
  {
    var s1a, s1b := ReplaceAll(a, '&', "&amp;"), ReplaceAll(b, '&', "&amp;");
    var s2a, s2b := ReplaceAll(s1a, '<', "&lt;"), ReplaceAll(s1b, '<', "&lt;");
    var s3a, s3b := ReplaceAll(s2a, '>', "&gt;"), ReplaceAll(s2b, '>', "&gt;");
    var s4a, s4b := ReplaceAll(s3a, '"', "&quot;"), ReplaceAll(s3b, '"', "&quot;");
    ReplaceAllAppend(a, b, '&', "&amp;");
    ReplaceAllAppend(s1a, s1b, '<', "&lt;");
    ReplaceAllAppend(s2a, s2b, '>', "&gt;");
    ReplaceAllAppend(s3a, s3b, '"', "&quot;");
    ReplaceAllAppend(s4a, s4b, '\'', "&#039;");
  }

  lemma ReplaceAllOne(c: char, x: char, rep: string)
    ensures ReplaceAll([c], x, rep) == if c == x then rep else [c]
  {
    assert [c][1..] == [];
  }

  /** The replacements after the `&` step leave an entity that holds none of their characters alone. */
  lemma ReplacementsAfter(e: string, step: nat)
    requires 1 <= step <= 5
    requires step <= 1 ==> '<' !in e
    requires step <= 2 ==> '>' !in e
    requires step <= 3 ==> '"' !in e
    requires step <= 4 ==> '\'' !in e
    ensures step <= 1 ==> ReplaceAll(e, '<', "&lt;") == e
    ensures step <= 2 ==> ReplaceAll(e, '>', "&gt;") == e
    ensures step <= 3 ==> ReplaceAll(e, '"', "&quot;") == e
    ensures step <= 4 ==> ReplaceAll(e, '\'', "&#039;") == e
  {
    if step <= 1 { ReplaceAllAbsent(e, '<', "&lt;"); }
    if step <= 2 { ReplaceAllAbsent(e, '>', "&gt;"); }
    if step <= 3 { ReplaceAllAbsent(e, '"', "&quot;"); }
    if step <= 4 { ReplaceAllAbsent(e, '\'', "&#039;"); }
  }

  /** On one character the chain gives that character's entity: no entity is escaped twice. */
  lemma EscapeHtmlChar(c: char)
    ensures EscapeHtml([c]) == EscapeChar(c)
  {
    var s1 := ReplaceAll([c], '&', "&amp;");
    ReplaceAllOne(c, '&', "&amp;");
    if c == '&' {
      ReplacementsAfter(s1, 1);
      return;
    }
    var s2 := ReplaceAll(s1, '<', "&lt;");
    ReplaceAllOne(c, '<', "&lt;");
    if c == '<' {
      ReplacementsAfter(s2, 2);
      return;
    }
    var s3 := ReplaceAll(s2, '>', "&gt;");
    ReplaceAllOne(c, '>', "&gt;");
    if c == '>' {
      ReplacementsAfter(s3, 3);
      return;
    }
    var s4 := ReplaceAll(s3, '"', "&quot;");
    ReplaceAllOne(c, '"', "&quot;");
    if c == '"' {
      ReplacementsAfter(s4, 4);
      return;
    }
    ReplaceAllOne(c, '\'', "&#039;");
  }

  /** The chain of replacements equals escaping each character on its own. */
  lemma {:induction false} EscapeHtmlPerChar(s: string)
    ensures EscapeHtml(s) == EscapeEach(s)
  {
    if s == [] {
    } else {
      calc {
        EscapeHtml(s);
        { assert s == [s[0]] + s[1..]; }
        EscapeHtml([s[0]] + s[1..]);
        { EscapeHtmlAppend([s[0]], s[1..]); }
        EscapeHtml([s[0]]) + EscapeHtml(s[1..]);
        { EscapeHtmlChar(s[0]); EscapeHtmlPerChar(s[1..]); }
        EscapeChar(s[0]) + EscapeEach(s[1..]);
      }
    }
  }

  /** A character that would start a tag, close one, or end an attribute value. */
  predicate IsMarkup(c: char)
  {
    c == '<' || c == '>' || c == '"' || c == '\''
  }

  /** The text at this point begins with one of the five entities. */
  predicate StartsEntity(t: string)
  {
    "&amp;" <= t || "&lt;" <= t || "&gt;" <= t || "&quot;" <= t || "&#039;" <= t
  }

  /** Properties of escaped text, preserved when two pieces are joined. */
  predicate SafeText(r: string)
  {
    && (forall i :: 0 <= i < |r| ==> !IsMarkup(r[i]))
    && (forall i :: 0 <= i < |r| && r[i] == '&' ==> StartsEntity(r[i..]))
  }

  lemma SafeTextAppend(a: string, b: string)
    requires SafeText(a) && SafeText(b)
    ensures SafeText(a + b)
  {
    var r := a + b;
    forall i | 0 <= i < |r| && r[i] == '&' ensures StartsEntity(r[i..]) {
      if i < |a| {
        assert a[i] == '&' && StartsEntity(a[i..]);
        assert a[i..] + b == r[i..];
      } else {
        assert b[i - |a|] == '&' && StartsEntity(b[i - |a|..]);
        assert r[i..] == b[i - |a|..];
      }
    }
    forall i | 0 <= i < |r| ensures !IsMarkup(r[i]) {
      if i < |a| { assert r[i] == a[i]; } else { assert r[i] == b[i - |a|]; }
    }
  }

  lemma {:induction false} EscapeEachSafe(s: string)
    ensures SafeText(EscapeEach(s))
  {
    if s != [] {
      EscapeEachSafe(s[1..]);
      var e := EscapeChar(s[0]);
      assert SafeText(e) by {
        if !IsSpecial(s[0]) {
          assert e == [s[0]];
        } else {
          assert e[1..] != [] && forall i :: 0 < i < |e| ==> e[i] != '&' && !IsMarkup(e[i]);
        }
      }
      SafeTextAppend(e, EscapeEach(s[1..]));
    }
  }

  /**
   * The output never holds `<`, `>`, `"` or `'`, and every `&` in it begins
   * one of the five entities.
   */
  lemma EscapeHtmlSafe(s: string)
    ensures forall i :: 0 <= i < |EscapeHtml(s)| ==> !IsMarkup(EscapeHtml(s)[i])
    ensures forall i :: 0 <= i < |EscapeHtml(s)| && EscapeHtml(s)[i] == '&' ==> StartsEntity(EscapeHtml(s)[i..])
  {
    EscapeHtmlPerChar(s);
    EscapeEachSafe(s);
  }

  lemma {:induction false} EscapeEachLength(s: string)
    ensures |EscapeEach(s)| >= |s|
    ensures |EscapeEach(s)| == |s| <==> forall i :: 0 <= i < |s| ==> !IsSpecial(s[i])
    ensures (forall i :: 0 <= i < |s| ==> !IsSpecial(s[i])) ==> EscapeEach(s) == s
  {
    if s != [] {
      EscapeEachLength(s[1..]);
      assert s == [s[0]] + s[1..];
      assert forall i :: 0 < i < |s| ==> s[i] == s[1..][i - 1];
    }
  }

  /**
   * The output is never shorter than the input; it has the same length exactly
   * when no special character occurs, and then it is the input itself.
   */
  lemma EscapeHtmlLength(s: string)
    ensures |EscapeHtml(s)| >= |s|
    ensures |EscapeHtml(s)| == |s| <==> forall i :: 0 <= i < |s| ==> !IsSpecial(s[i])
    ensures (forall i :: 0 <= i < |s| ==> !IsSpecial(s[i])) ==> EscapeHtml(s) == s
  {
    EscapeHtmlPerChar(s);
    EscapeEachLength(s);
  }

  /** A character other than the five specials passes through unchanged. */
  lemma EscapeHtmlPlainChar(c: char)
    requires !IsSpecial(c)
    ensures EscapeHtml([c]) == [c]
  {
    EscapeHtmlChar(c);
  }

  /** A decoder of the five entities `escapeHtml` produces; other character references are left as they are. */
  function Unescape(s: string): string
    decreases |s|
  {
    if s == [] then []
    else if "&amp;" <= s then ['&'] + Unescape(s[5..])
    else if "&lt;" <= s then ['<'] + Unescape(s[4..])
    else if "&gt;" <= s then ['>'] + Unescape(s[4..])
    else if "&quot;" <= s then ['"'] + Unescape(s[6..])
    else if "&#039;" <= s then ['\''] + Unescape(s[6..])
    else [s[0]] + Unescape(s[1..])
  }

  lemma UnescapeStep(c: char, t: string)
    ensures Unescape(EscapeChar(c) + t) == [c] + Unescape(t)
  {
    var e := EscapeChar(c);
    var u := e + t;
    assert u[..|e|] == e && u[|e|..] == t;
    if c == '&' {
      assert "&amp;" <= u;
    } else if c == '<' {
      assert !("&amp;" <= u) by { assert u[1] == 'l'; }
      assert "&lt;" <= u;
    } else if c == '>' {
      assert !("&amp;" <= u) && !("&lt;" <= u) by { assert u[1] == 'g'; }
      assert "&gt;" <= u;
    } else if c == '"' {
      assert !("&amp;" <= u) && !("&lt;" <= u) && !("&gt;" <= u) by { assert u[1] == 'q'; }
      assert "&quot;" <= u;
    } else if c == '\'' {
      assert !("&amp;" <= u) && !("&lt;" <= u) && !("&gt;" <= u) && !("&quot;" <= u) by { assert u[1] == '#'; }
      assert "&#039;" <= u;
    } else {
      assert u[0] == c && u[1..] == t;
    }
  }

  /** Decoding the five entities in the escaped text gives back the original text. */
  lemma {:induction false} UnescapeEscapeHtml(s: string)
    ensures Unescape(EscapeHtml(s)) == s
  {
    EscapeHtmlPerChar(s);
    UnescapeEscapeEach(s);
  }

  lemma {:induction false} UnescapeEscapeEach(s: string)
    ensures Unescape(EscapeEach(s)) == s
  {
    if s != [] {
      UnescapeStep(s[0], EscapeEach(s[1..]));
      UnescapeEscapeEach(s[1..]);
      assert s == [s[0]] + s[1..];
    }
  }
}
