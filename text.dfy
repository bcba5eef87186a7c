/** Text helpers of src/main.rs: collapsing whitespace in scraped text and escaping
    names for Telegram's HTML message format. */
module TextFormat {
  import opened Wrappers
  import opened Strings
  import opened Unicode

  // ---- strip_white ----

  /** The words of `s` separated by single spaces; empty exactly when `s` has no word. */
  function Collapsed(s: string): (r: string)
    ensures r == [] <==> Fields(s, IsWhitespace) == []
  {
    var ws := Fields(s, IsWhitespace);
    assert ws != [] ==> ws[0] <= Join(ws, " ") by {
      if ws != [] {
        JoinEnds(ws, " ");
      }
    }
    Join(ws, " ")
  }

  /** strip_white: every word followed by a space, then the last byte (that space) cut. */
  method StripWhite(s: string) returns (r: string)
    ensures r == Collapsed(s)
  {
    var words := Fields(s, IsWhitespace);
    r := "";
    var k := 0;
    while k < |words|
      invariant k <= |words|
      invariant k == 0 ==> r == ""
      invariant k > 0 ==> r == Join(words[..k], " ") + " "
    {
      if k > 0 {
        JoinAppend(words[..k], words[k], " ");
      }
      assert words[..k + 1] == words[..k] + [words[k]];
      r := r + words[k];
      r := r + " ";
      k := k + 1;
    }
    assert words[..k] == words;
    var n := Utf8Len(r);
    if n > 0 {
      DropAsciiTail(Join(words, " "), " ");
      r := SliceTo(r, n - 1).value;
    }
  }

  /** Collapsing keeps exactly the words of the text. */
  lemma CollapsedWords(s: string)
    ensures Fields(Collapsed(s), IsWhitespace) == Fields(s, IsWhitespace)
  {
    FieldsJoin(Fields(s, IsWhitespace), ' ', IsWhitespace);
  }

  /** Collapsing collapsed text changes nothing. */
  lemma CollapsedIdempotent(s: string)
    ensures Collapsed(Collapsed(s)) == Collapsed(s)
  {
    CollapsedWords(s);
  }

  /** The first word leads a join and the last one ends it. */
  lemma {:induction false} JoinEnds(ws: seq<string>, sep: string)
    requires ws != []
    ensures ws[0] <= Join(ws, sep)
    ensures |ws[|ws| - 1]| <= |Join(ws, sep)|
    ensures Join(ws, sep)[|Join(ws, sep)| - |ws[|ws| - 1]|..] == ws[|ws| - 1]
    decreases |ws|
  {
    if |ws| > 1 {
      JoinEnds(ws[1..], sep);
      var j := Join(ws[1..], sep);
      assert Join(ws, sep) == (ws[0] + sep) + j;
    }
  }

  /** Collapsed text neither starts nor ends with whitespace. */
  lemma CollapsedEdges(s: string)
    ensures var c := Collapsed(s); c == [] || (!IsWhitespace(c[0]) && !IsWhitespace(c[|c| - 1]))
  {
    var ws := Fields(s, IsWhitespace);
    if ws != [] {
      JoinEnds(ws, " ");
      var c, last := Join(ws, " "), ws[|ws| - 1];
      assert c[0] == ws[0][0];
      assert c[|c| - 1] == c[|c| - |last|..][|last| - 1] == last[|last| - 1];
    }
  }

  // ---- HTML escaping ----

  /** `str::replace` with a one-char pattern: every `c` becomes `rep`. */
  function ReplaceChar(s: string, c: char, rep: string): string
  {
    if s == [] then [] else (if s[0] == c then rep else [s[0]]) + ReplaceChar(s[1..], c, rep)
  }

  /** The `replace` chain of make_about_text: `&`, then `<`, then `>`. */
  function EscapeHtml(s: string): string
  {
    ReplaceChar(ReplaceChar(ReplaceChar(s, '&', "&amp;"), '<', "&lt;"), '>', "&gt;")
  }

  function EscapeChar(c: char): string
  {
    if c == '&' then "&amp;" else if c == '<' then "&lt;" else if c == '>' then "&gt;" else [c]
  }

  /** Each char escaped on its own. */
  function EscapeChars(s: string): string
  {
    if s == [] then [] else EscapeChar(s[0]) + EscapeChars(s[1..])
  }

  lemma {:induction false} ReplaceCharAppend(u: string, v: string, c: char, rep: string)
    ensures ReplaceChar(u + v, c, rep) == ReplaceChar(u, c, rep) + ReplaceChar(v, c, rep)
    decreases |u|
  {
    if u == [] {
      assert u + v == v;
    } else {
      assert (u + v)[1..] == u[1..] + v;
      ReplaceCharAppend(u[1..], v, c, rep);
    }
  }

  lemma {:induction false} ReplaceCharAbsent(s: string, c: char, rep: string)
    requires c !in s
    ensures ReplaceChar(s, c, rep) == s
    decreases |s|
  {
    if s != [] {
      ReplaceCharAbsent(s[1..], c, rep);
    }
  }

  /** The three whole-text replacements escape char by char: no replacement text holds a
      char a later replacement looks for. */
  lemma {:induction false} EscapePerChar(s: string)
    ensures EscapeHtml(s) == EscapeChars(s)
    decreases |s|
  {
    if s != [] {
      EscapePerChar(s[1..]);
      assert s == [s[0]] + s[1..];
      EscapeSplit([s[0]], s[1..]);
      EscapeOne(s[0]);
    }
  }

  /** Escaping a concatenation escapes the parts. */
  lemma EscapeSplit(u: string, v: string)
    ensures EscapeHtml(u + v) == EscapeHtml(u) + EscapeHtml(v)
  {
    var u1, v1 := ReplaceChar(u, '&', "&amp;"), ReplaceChar(v, '&', "&amp;");
    ReplaceCharAppend(u, v, '&', "&amp;");
    var u2, v2 := ReplaceChar(u1, '<', "&lt;"), ReplaceChar(v1, '<', "&lt;");
    ReplaceCharAppend(u1, v1, '<', "&lt;");
    ReplaceCharAppend(u2, v2, '>', "&gt;");
  }

  /** One char escaped by the three replacements. */
  lemma EscapeOne(c: char)
    ensures EscapeHtml([c]) == EscapeChar(c)
  {
    ReplaceOne(c, '&', "&amp;");
    var a := ReplaceChar([c], '&', "&amp;");
    if c == '&' {
      ReplaceCharAbsent(a, '<', "&lt;");
      ReplaceCharAbsent(a, '>', "&gt;");
    } else {
      ReplaceOne(c, '<', "&lt;");
      var b := ReplaceChar(a, '<', "&lt;");
      if c == '<' {
        ReplaceCharAbsent(b, '>', "&gt;");
      } else {
        ReplaceOne(c, '>', "&gt;");
      }
    }
  }

  lemma ReplaceOne(c: char, x: char, rep: string)
    ensures ReplaceChar([c], x, rep) == if c == x then rep else [c]
  {
    assert [c][1..] == [];
  }

  /** The HTML entities `&amp;`, `&lt;` and `&gt;` read back as the chars they stand for. */
  function Unescape(t: string): string
    decreases |t|
  {
    if t == [] then []
    else if |t| >= 5 && t[..5] == "&amp;" then "&" + Unescape(t[5..])
    else if |t| >= 4 && t[..4] == "&lt;" then "<" + Unescape(t[4..])
    else if |t| >= 4 && t[..4] == "&gt;" then ">" + Unescape(t[4..])
    else [t[0]] + Unescape(t[1..])
  }

  /** Escaping is undone by reading the entities back. */
  lemma {:induction false} UnescapeEscape(s: string)
    ensures Unescape(EscapeHtml(s)) == s
  {
    EscapePerChar(s);
    UnescapeChars(s);
  }

  lemma {:induction false} UnescapeChars(s: string)
    ensures Unescape(EscapeChars(s)) == s
    decreases |s|
  {
    if s != [] {
      UnescapeChars(s[1..]);
      var e, rest := EscapeChar(s[0]), EscapeChars(s[1..]);
      var t := e + rest;
      assert t[..|e|] == e && t[|e|..] == rest;
      if s[0] == '&' {
        assert Unescape(t) == "&" + Unescape(rest);
      } else if s[0] == '<' {
        assert |t| >= 5 ==> t[..5] != "&amp;" by { assert t[1] == 'l'; }
        assert Unescape(t) == "<" + Unescape(rest);
      } else if s[0] == '>' {
        assert |t| >= 5 ==> t[..5] != "&amp;" by { assert t[1] == 'g'; }
        assert t[..4] != "&lt;" by { assert t[1] == 'g'; }
        assert Unescape(t) == ">" + Unescape(rest);
      } else {
        assert t[0] == s[0] && t[1..] == rest;
        assert |t| >= 4 ==> t[..4][0] != '&';
        assert |t| >= 5 ==> t[..5][0] != '&';
        assert Unescape(t) == [s[0]] + Unescape(rest);
      }
      assert s == [s[0]] + s[1..];
    }
  }

  /** Escaped text holds no `<` or `>`, so no markup of its own. */
  lemma {:induction false} EscapeNoMarkup(s: string)
    ensures '<' !in EscapeHtml(s) && '>' !in EscapeHtml(s)
  {
    EscapePerChar(s);
    EscapeCharsNoMarkup(s);
  }

  lemma {:induction false} EscapeCharsNoMarkup(s: string)
    ensures '<' !in EscapeChars(s) && '>' !in EscapeChars(s)
    decreases |s|
  {
    if s != [] {
      EscapeCharsNoMarkup(s[1..]);
      var e := EscapeChar(s[0]);
      assert '<' !in e && '>' !in e;
    }
  }
}
