/** Text as Rust sees it: strings are sequences of Unicode scalar values (`chars()`),
    split into fields the way `split_whitespace` and `split(pattern)` followed by
    dropping empty pieces do. */
module Strings {

  /** char::is_whitespace: the Unicode White_Space property. */
  predicate IsWhitespace(c: char)
  {
    ('\U{9}' <= c <= '\U{D}') || c == ' ' || c == '\U{85}' || c == '\U{A0}' ||
    c == '\U{1680}' || ('\U{2000}' <= c <= '\U{200A}') || c == '\U{2028}' ||
    c == '\U{2029}' || c == '\U{202F}' || c == '\U{205F}' || c == '\U{3000}'
  }

  /** No character of `w` is a separator. */
  predicate NoSep(w: string, sep: char -> bool)
  {
    forall i :: 0 <= i < |w| ==> !sep(w[i])
  }

  /** The longest prefix of `s` without a separator. */
  function Run(s: string, sep: char -> bool): (w: string)
    ensures w <= s && NoSep(w, sep)
    ensures |w| == |s| || sep(s[|w|])
  {
    if s == [] || sep(s[0]) then [] else [s[0]] + Run(s[1..], sep)
  }

  /** The maximal non-empty runs of non-separators, left to right: `split_whitespace`
      for `IsWhitespace`, and `split(sep)` with the empty pieces dropped in general. */
  function Fields(s: string, sep: char -> bool): (ws: seq<string>)
    ensures forall k :: 0 <= k < |ws| ==> ws[k] != [] && NoSep(ws[k], sep)
    decreases |s|
  {
    if s == [] then []
    else if sep(s[0]) then Fields(s[1..], sep)
    else
      var w := Run(s, sep);
      [w] + Fields(s[|w|..], sep)
  }

  /** The characters of `s` that are not separators, in order. */
  function Kept(s: string, sep: char -> bool): string
  {
    if s == [] then [] else (if sep(s[0]) then [] else [s[0]]) + Kept(s[1..], sep)
  }

  function Concat(ws: seq<string>): string
  {
    if ws == [] then [] else ws[0] + Concat(ws[1..])
  }

  lemma {:induction false} KeptAppend(u: string, v: string, sep: char -> bool)
    ensures Kept(u + v, sep) == Kept(u, sep) + Kept(v, sep)
    decreases |u|
  {
    if u == [] {
      assert u + v == v;
    } else {
      assert (u + v)[1..] == u[1..] + v;
      KeptAppend(u[1..], v, sep);
    }
  }

  lemma {:induction false} KeptNoSep(w: string, sep: char -> bool)
    requires NoSep(w, sep)
    ensures Kept(w, sep) == w
    decreases |w|
  {
    if w != [] {
      KeptNoSep(w[1..], sep);
    }
  }

  lemma {:induction false} ConcatAppend(ws: seq<string>, vs: seq<string>)
    ensures Concat(ws + vs) == Concat(ws) + Concat(vs)
    decreases |ws|
  {
    if ws == [] {
      assert ws + vs == vs;
    } else {
      assert (ws + vs)[0] == ws[0];
      assert (ws + vs)[1..] == ws[1..] + vs;
      ConcatAppend(ws[1..], vs);
    }
  }

  /** Joining the fields back together gives exactly the non-separator characters
      of the input, in their original order: nothing is lost, reordered or invented. */
  lemma {:induction false} FieldsKept(s: string, sep: char -> bool)
    ensures Concat(Fields(s, sep)) == Kept(s, sep)
    decreases |s|
  {
    if s == [] {
    } else if sep(s[0]) {
      FieldsKept(s[1..], sep);
    } else {
      var w := Run(s, sep);
      assert s == w + s[|w|..];
      FieldsKept(s[|w|..], sep);
      KeptAppend(w, s[|w|..], sep);
      KeptNoSep(w, sep);
    }
  }

  /** A string without separators is a single field (or none when empty). */
  lemma FieldsNoSep(w: string, sep: char -> bool)
    requires NoSep(w, sep)
    ensures Fields(w, sep) == if w == [] then [] else [w]
  {
    if w != [] {
      RunNoSep(w, sep);
      assert w[|w|..] == [];
    }
  }

  lemma {:induction false} RunNoSep(w: string, sep: char -> bool)
    requires NoSep(w, sep)
    ensures Run(w, sep) == w
    decreases |w|
  {
    if w != [] {
      RunNoSep(w[1..], sep);
    }
  }

  /** Two separator predicates that agree on every character of `s` cut it the same way. */
  lemma {:induction false} FieldsAgree(s: string, p: char -> bool, q: char -> bool)
    requires forall i :: 0 <= i < |s| ==> p(s[i]) == q(s[i])
    ensures Fields(s, p) == Fields(s, q)
    decreases |s|
  {
    if s != [] {
      if p(s[0]) {
        FieldsAgree(s[1..], p, q);
      } else {
        RunAgree(s, p, q);
        var w := Run(s, p);
        FieldsAgree(s[|w|..], p, q);
      }
    }
  }

  lemma {:induction false} RunAgree(s: string, p: char -> bool, q: char -> bool)
    requires forall i :: 0 <= i < |s| ==> p(s[i]) == q(s[i])
    ensures Run(s, p) == Run(s, q)
    decreases |s|
  {
    if s != [] && !p(s[0]) {
      RunAgree(s[1..], p, q);
    }
  }

  /** The run of `u + v` stays inside `u` when `v` is empty or starts with a separator. */
  lemma {:induction false} RunStops(u: string, v: string, sep: char -> bool)
    requires v == [] || sep(v[0])
    ensures Run(u + v, sep) == Run(u, sep)
    decreases |u|
  {
    if u == [] {
      assert u + v == v;
    } else if !sep(u[0]) {
      assert (u + v)[1..] == u[1..] + v;
      RunStops(u[1..], v, sep);
    }
  }

  /** Cutting at a separator: the fields of `u + v` are those of `u` followed by those
      of `v` when `v` is empty or starts with a separator. */
  lemma {:induction false} FieldsSplitAt(u: string, v: string, sep: char -> bool)
    requires v == [] || sep(v[0])
    ensures Fields(u + v, sep) == Fields(u, sep) + Fields(v, sep)
    decreases |u|
  {
    if u == [] {
      assert u + v == v;
    } else if sep(u[0]) {
      assert (u + v)[1..] == u[1..] + v;
      FieldsSplitAt(u[1..], v, sep);
    } else {
      RunStops(u, v, sep);
      var w := Run(u, sep);
      assert (u + v)[|w|..] == u[|w|..] + v;
      FieldsSplitAt(u[|w|..], v, sep);
    }
  }

  /** The words separated by `sep`. */
  function Join(ws: seq<string>, sep: string): string
  {
    if ws == [] then [] else if |ws| == 1 then ws[0] else ws[0] + sep + Join(ws[1..], sep)
  }

  /** A word joined on at the end comes after one more separator. */
  lemma {:induction false} JoinAppend(ws: seq<string>, w: string, sep: string)
    requires ws != []
    ensures Join(ws + [w], sep) == Join(ws, sep) + sep + w
    decreases |ws|
  {
    assert (ws + [w])[0] == ws[0];
    if |ws| == 1 {
      assert (ws + [w])[1..] == [w];
    } else {
      assert (ws + [w])[1..] == ws[1..] + [w];
      JoinAppend(ws[1..], w, sep);
    }
  }

  /** Joining non-empty separator-free words with one separator and cutting again gives
      the words back. */
  lemma {:induction false} FieldsJoin(ws: seq<string>, c: char, sep: char -> bool)
    requires sep(c)
    requires forall k :: 0 <= k < |ws| ==> ws[k] != [] && NoSep(ws[k], sep)
    ensures Fields(Join(ws, [c]), sep) == ws
    decreases |ws|
  {
    if ws != [] {
      FieldsNoSep(ws[0], sep);
      if |ws| > 1 {
        var rest := Join(ws[1..], [c]);
        assert Join(ws, [c]) == ws[0] + ([c] + rest);
        FieldsSplitAt(ws[0], [c] + rest, sep);
        assert ([c] + rest)[1..] == rest;
        FieldsJoin(ws[1..], c, sep);
        assert ws == [ws[0]] + ws[1..];
      }
    }
  }

  /** `str::split(c)`: the pieces between occurrences of `c`, empty ones included. */
  function SplitOn(s: string, c: char): (ps: seq<string>)
    ensures |ps| >= 1
    ensures forall k :: 0 <= k < |ps| ==> c !in ps[k]
    decreases |s|
  {
    if s == [] then [[]]
    else if s[0] == c then [[]] + SplitOn(s[1..], c)
    else
      var r := SplitOn(s[1..], c);
      [[s[0]] + r[0]] + r[1..]
  }

  /** Splitting and joining with the same separator are inverse: the pieces put back
      together give the text ... */
  lemma {:induction false} JoinSplitOn(s: string, c: char)
    ensures Join(SplitOn(s, c), [c]) == s
    decreases |s|
  {
    if s != [] {
      JoinSplitOn(s[1..], c);
      var r := SplitOn(s[1..], c);
      if s[0] == c {
        assert SplitOn(s, c)[1..] == r;
      } else {
        var ps := SplitOn(s, c);
        if |r| > 1 {
          assert ps[1..] == r[1..];
          assert Join(r, [c]) == r[0] + [c] + Join(r[1..], [c]);
        }
      }
    }
  }

  /** ... and pieces without the separator, joined and split, come back unchanged. */
  lemma {:induction false} SplitOnJoin(ps: seq<string>, c: char)
    requires |ps| >= 1 && forall k :: 0 <= k < |ps| ==> c !in ps[k]
    ensures SplitOn(Join(ps, [c]), c) == ps
    decreases |ps|, |ps[0]|
  {
    if ps[0] == [] {
      if |ps| > 1 {
        assert Join(ps, [c]) == [c] + Join(ps[1..], [c]);
        assert (([c] + Join(ps[1..], [c])))[1..] == Join(ps[1..], [c]);
        SplitOnJoin(ps[1..], c);
      }
    } else {
      var ps' := [ps[0][1..]] + ps[1..];
      assert ps'[1..] == ps[1..];
      assert Join(ps, [c]) == [ps[0][0]] + Join(ps', [c]);
      assert ([ps[0][0]] + Join(ps', [c]))[1..] == Join(ps', [c]);
      assert forall k :: 0 <= k < |ps'| ==> c !in ps'[k];
      SplitOnJoin(ps', c);
      assert ps[0] == [ps[0][0]] + ps[0][1..];
      assert ps == [ps[0]] + ps[1..];
    }
  }

  // ---- order ----

  /** `Ord` on `str`: lexicographic by bytes, which for UTF-8 is lexicographic by chars. */
  predicate LexLess(a: string, b: string)
    decreases |a|
  {
    if a == [] then b != []
    else if b == [] then false
    else if a[0] != b[0] then a[0] < b[0]
    else LexLess(a[1..], b[1..])
  }

  lemma {:induction false} LexIrreflexive(a: string)
    ensures !LexLess(a, a)
    decreases |a|
  {
    if a != [] {
      LexIrreflexive(a[1..]);
    }
  }

  lemma {:induction false} LexTransitive(a: string, b: string, c: string)
    requires LexLess(a, b) && LexLess(b, c)
    ensures LexLess(a, c)
    decreases |a|
  {
    if a != [] && b != [] && c != [] && a[0] == b[0] && b[0] == c[0] {
      LexTransitive(a[1..], b[1..], c[1..]);
    }
  }

  /** Two different strings are ordered one way or the other, never both. */
  lemma {:induction false} LexTotal(a: string, b: string)
    ensures a == b || LexLess(a, b) || LexLess(b, a)
    ensures !(LexLess(a, b) && LexLess(b, a))
    decreases |a|
  {
    if a != [] && b != [] && a[0] == b[0] {
      LexTotal(a[1..], b[1..]);
      if a[1..] == b[1..] {
        assert a == [a[0]] + a[1..] && b == [b[0]] + b[1..];
      }
    }
  }

  // ---- trimming ----

  /** `str::trim_start`: the text after its leading whitespace. */
  function TrimStart(s: string): (t: string)
    ensures |t| <= |s| && t == s[|s| - |t|..]
    ensures forall i :: 0 <= i < |s| - |t| ==> IsWhitespace(s[i])
    ensures t == [] || !IsWhitespace(t[0])
    decreases |s|
  {
    if s != [] && IsWhitespace(s[0]) then TrimStart(s[1..]) else s
  }

  /** `str::trim_end`: the text before its trailing whitespace. */
  function TrimEnd(s: string): (t: string)
    ensures |t| <= |s| && t == s[..|t|]
    ensures forall i :: |t| <= i < |s| ==> IsWhitespace(s[i])
    ensures t == [] || !IsWhitespace(t[|t| - 1])
    decreases |s|
  {
    if s != [] && IsWhitespace(s[|s| - 1]) then TrimEnd(s[..|s| - 1]) else s
  }

  /** `str::trim`: the part of the text between its leading and its trailing whitespace. */
  function Trim(s: string): (t: string)
    ensures exists i, j :: (0 <= i <= j <= |s| && t == s[i..j] &&
      (forall k :: 0 <= k < i ==> IsWhitespace(s[k])) && (forall k :: j <= k < |s| ==> IsWhitespace(s[k])))
    ensures t == [] || (!IsWhitespace(t[0]) && !IsWhitespace(t[|t| - 1]))
  {
    var u := TrimStart(s);
    var t := TrimEnd(u);
    TrimSlice(s, u, t);
    t
  }

  /** A prefix `t` of a suffix `u` of `s` is a slice of `s` with only whitespace around
      it when only whitespace precedes `u` and follows `t`. */
  lemma TrimSlice(s: string, u: string, t: string)
    requires |u| <= |s| && u == s[|s| - |u|..] && |t| <= |u| && t == u[..|t|]
    requires forall k :: 0 <= k < |s| - |u| ==> IsWhitespace(s[k])
    requires forall k :: |t| <= k < |u| ==> IsWhitespace(u[k])
    ensures exists i, j :: (0 <= i <= j <= |s| && t == s[i..j] &&
      (forall k :: 0 <= k < i ==> IsWhitespace(s[k])) && (forall k :: j <= k < |s| ==> IsWhitespace(s[k])))
  {
    var i := |s| - |u|;
    forall k | i + |t| <= k < |s|
      ensures IsWhitespace(s[k])
    {
      assert s[k] == u[k - i];
    }
    assert t == s[i..i + |t|];
  }

  /** Trimming leaves nothing exactly when the text is all whitespace. */
  lemma TrimBlank(s: string)
    ensures Trim(s) == [] <==> forall k :: 0 <= k < |s| ==> IsWhitespace(s[k])
  {
    var t := Trim(s);
    var i, j :| 0 <= i <= j <= |s| && t == s[i..j] &&
      (forall k :: 0 <= k < i ==> IsWhitespace(s[k])) && (forall k :: j <= k < |s| ==> IsWhitespace(s[k]));
    if t != [] {
      assert s[i] == t[0];
    }
  }
}
