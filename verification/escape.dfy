/**
  The client's HTML entity encoder (`escapeHTML`) and the decoder a browser
  applies to the five entities it produces.

  The encoder replaces each of `& < > " '` by its entity and copies every
  other character; the decoder is its partner, and `UnescapeEscape` shows
  that no information is lost.
 */
module HtmlEscape {

  /** The five characters the encoder rewrites. */
  predicate Special(c: char) {
    c == '&' || c == '<' || c == '>' || c == '"' || c == '\''
  }

  /** Characters that would let text open a tag or leave an attribute value. */
  predicate Markup(c: char) {
    c == '<' || c == '>' || c == '"' || c == '\''
  }

  /** The replacement for one character. */
  function EntityOf(c: char): (e: string)
    ensures Special(c) ==> |e| >= 4 && e[0] == '&' && e[|e| - 1] == ';'
    ensures !Special(c) ==> e == [c]
  {
    match c
    case '&' => "&amp;"
    case '<' => "&lt;"
    case '>' => "&gt;"
    case '"' => "&quot;"
    case '\'' => "&#39;"
    case _ => [c]
  }

  /** True when an entity produced by the encoder starts at position `i`. */
  predicate EntityAt(r: string, i: nat)
    requires i <= |r|
  {
    var t := r[i..];
    "&amp;" <= t || "&lt;" <= t || "&gt;" <= t
    || "&quot;" <= t || "&#39;" <= t
  }

  /** No markup character, and every `&` opens one of the five entities. */
  predicate Safe(r: string) {
    && (forall i :: 0 <= i < |r| ==> !Markup(r[i]))
    && (forall i :: 0 <= i < |r| && r[i] == '&' ==> EntityAt(r, i))
  }

  /** `escapeHTML`: replace each special character by its entity. */
  function Escape(s: string): (r: string)
    ensures |r| >= |s|
  {
    if s == [] then [] else EntityOf(s[0]) + Escape(s[1..])
  }

  /** Decoding of the five entities; any other character is copied. */
  function Unescape(r: string): (s: string)
    ensures |s| <= |r|
  {
    if r == [] then []
    else if "&amp;" <= r then ['&'] + Unescape(r[5..])
    else if "&lt;" <= r then ['<'] + Unescape(r[4..])
    else if "&gt;" <= r then ['>'] + Unescape(r[4..])
    else if "&quot;" <= r then ['"'] + Unescape(r[6..])
    else if "&#39;" <= r then ['\''] + Unescape(r[5..])
    else [r[0]] + Unescape(r[1..])
  }

  /** Escaping distributes over concatenation: it works character by character. */
  lemma {:induction false} EscapeConcat(a: string, b: string)
    ensures Escape(a + b) == Escape(a) + Escape(b)
  {
    if a == [] {
      assert a + b == b;
    } else {
      assert (a + b)[1..] == a[1..] + b;
      EscapeConcat(a[1..], b);
    }
  }

  /** Escaping leaves a string unchanged exactly when it has no special character. */
  lemma {:induction false} EscapeFixpoint(s: string)
    ensures Escape(s) == s <==> forall i :: 0 <= i < |s| ==> !Special(s[i])
  {
    if s != [] {
      EscapeFixpoint(s[1..]);
      if Special(s[0]) {
        assert |Escape(s)| > |s|;
      } else {
        assert Escape(s) == [s[0]] + Escape(s[1..]);
        if Escape(s[1..]) == s[1..] {
          assert s == [s[0]] + s[1..];
        } else {
          assert Escape(s)[1..] == Escape(s[1..]);
        }
        assert forall i :: 1 <= i < |s| ==> s[i] == s[1..][i - 1];
      }
    }
  }

  lemma SafeConcat(e: string, t: string)
    requires Safe(e) && Safe(t)
    ensures Safe(e + t)
  {
    var r := e + t;
    forall i | 0 <= i < |r| && r[i] == '&'
      ensures EntityAt(r, i)
    {
      if i < |e| {
        assert r[i] == e[i];
        assert EntityAt(e, i);
        assert r[i..] == e[i..] + t;
        var w := e[i..];
        assert "&amp;" <= w || "&lt;" <= w || "&gt;" <= w
          || "&quot;" <= w || "&#39;" <= w;
      } else {
        assert r[i] == t[i - |e|];
        assert EntityAt(t, i - |e|);
        assert r[i..] == t[i - |e|..];
      }
    }
    forall i | 0 <= i < |r|
      ensures !Markup(r[i])
    {
      if i < |e| { assert r[i] == e[i]; } else { assert r[i] == t[i - |e|]; }
    }
  }

  lemma EntitySafe(c: char)
    ensures Safe(EntityOf(c))
  {
    var e := EntityOf(c);
    if Special(c) {
      assert EntityAt(e, 0);
      assert forall i :: 0 < i < |e| ==> e[i] != '&';
    }
  }

  /**
    The encoder's output never contains `<`, `>`, `"` or `'`, and every `&`
    in it begins one of `&amp;`, `&lt;`, `&gt;`, `&quot;`, `&#39;`.
   */
  lemma {:induction false} EscapeSafe(s: string)
    ensures Safe(Escape(s))
  {
    if s != [] {
      EscapeSafe(s[1..]);
      EntitySafe(s[0]);
      SafeConcat(EntityOf(s[0]), Escape(s[1..]));
    }
  }

  lemma UnescapeEntity(c: char, t: string)
    ensures Unescape(EntityOf(c) + t) == [c] + Unescape(t)
  {
    var e := EntityOf(c);
    var r := e + t;
    assert r[..|e|] == e && r[|e|..] == t;
    if c == '&' {
      assert "&amp;" <= r;
    } else if c == '<' {
      assert !("&amp;" <= r) by { assert r[1] == 'l'; }
      assert "&lt;" <= r;
    } else if c == '>' {
      assert !("&amp;" <= r) && !("&lt;" <= r) by { assert r[1] == 'g'; }
      assert "&gt;" <= r;
    } else if c == '"' {
      assert !("&amp;" <= r) && !("&lt;" <= r) && !("&gt;" <= r) by { assert r[1] == 'q'; }
      assert "&quot;" <= r;
    } else if c == '\'' {
      assert !("&amp;" <= r) && !("&lt;" <= r) && !("&gt;" <= r) && !("&quot;" <= r) by {
        assert r[1] == '#';
      }
      assert "&#39;" <= r;
    } else {
      assert r[0] == c && r[1..] == t;
      assert !("&amp;" <= r) && !("&lt;" <= r) && !("&gt;" <= r)
        && !("&quot;" <= r) && !("&#39;" <= r);
    }
  }

  /** Decoding the encoder's output recovers the original text: escaping is lossless. */
  lemma {:induction false} UnescapeEscape(s: string)
    ensures Unescape(Escape(s)) == s
  {
    if s != [] {
      UnescapeEntity(s[0], Escape(s[1..]));
      UnescapeEscape(s[1..]);
      assert s == [s[0]] + s[1..];
    }
  }

  /** Different inputs always give different outputs. */
  lemma EscapeInjective(a: string, b: string)
    ensures Escape(a) == Escape(b) <==> a == b
  {
    UnescapeEscape(a);
    UnescapeEscape(b);
  }
}
