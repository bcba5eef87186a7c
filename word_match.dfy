/** Word-wise matching (src/levenshtein.rs): an exhaustive search for the row-to-column
    bijection of largest total weight in a square matrix, and the word-wise distance of
    two names built on it. */
module WordMatch {
  import opened Wrappers
  import opened Strings
  import opened Levenshtein

  type Matrix = seq<seq<nat>>

  predicate Square(m: Matrix)
  {
    forall k :: 0 <= k < |m| ==> |m[k]| == |m|
  }

  /** Vec::remove: the element at `i` is taken out and the tail moves left. */
  function RemoveAt<T>(s: seq<T>, i: nat): (r: seq<T>)
    requires i < |s|
    ensures |r| == |s| - 1
    ensures forall k :: 0 <= k < |r| ==> r[k] == if k < i then s[k] else s[k + 1]
  {
    s[..i] + s[i + 1..]
  }

  /** Vec::insert: `x` is put at `i` and the tail moves right. */
  function InsertAt<T>(s: seq<T>, i: nat, x: T): (r: seq<T>)
    requires i <= |s|
    ensures |r| == |s| + 1 && r[i] == x
    ensures forall k :: 0 <= k < |s| ==> s[k] == if k < i then r[k] else r[k + 1]
  {
    s[..i] + [x] + s[i..]
  }

  /** Putting back what was removed restores the vector. */
  lemma InsertRemoved<T>(s: seq<T>, i: nat)
    requires i < |s|
    ensures InsertAt(RemoveAt(s, i), i, s[i]) == s
  {
    assert RemoveAt(s, i)[..i] == s[..i];
    assert RemoveAt(s, i)[i..] == s[i + 1..];
  }

  /** Every row of `m` without its column `i`. */
  function RemoveColumn(m: Matrix, i: nat): (r: Matrix)
    requires forall k :: 0 <= k < |m| ==> i < |m[k]|
    ensures |r| == |m| && forall k :: 0 <= k < |m| ==> r[k] == RemoveAt(m[k], i)
  {
    seq(|m|, k requires 0 <= k < |m| => RemoveAt(m[k], i))
  }

  /** All rows but the last one (what is left after Vec::pop). */
  function Front(m: Matrix): (f: Matrix)
    requires m != []
    ensures |f| == |m| - 1 && forall k :: 0 <= k < |f| ==> f[k] == m[k]
  {
    m[..|m| - 1]
  }

  lemma MinorSquare(m: Matrix, i: nat)
    requires Square(m) && i < |m|
    ensures Square(RemoveColumn(Front(m), i)) && |RemoveColumn(Front(m), i)| == |m| - 1
  {
  }

  /** The value `find_best_word_match` computes: the last row is taken off; for each of
      its columns `i`, the cell plus the best value of the remaining rows without column
      `i`; the largest of those, starting from 0. */
  function Best(m: Matrix): nat
    requires Square(m)
    decreases |m|, 2
  {
    if m == [] then 0 else BestUpTo(m, |m|)
  }

  /** The running maximum after the first `j` columns of the last row. */
  function BestUpTo(m: Matrix, j: nat): nat
    requires Square(m) && m != [] && j <= |m|
    decreases |m|, 1, j
  {
    if j == 0 then 0 else Max(BestUpTo(m, j - 1), Pick(m, j - 1))
  }

  /** The last row matched to column `i`, and the rest matched as well as possible. */
  function Pick(m: Matrix, i: nat): nat
    requires Square(m) && i < |m|
    decreases |m|, 0
  {
    MinorSquare(m, i);
    m[|m| - 1][i] + Best(RemoveColumn(Front(m), i))
  }

  /** `p` maps row k to column p[k], one-to-one onto 0..n-1. */
  predicate IsPerm(p: seq<nat>, n: nat)
  {
    |p| == n &&
    (forall k :: 0 <= k < n ==> p[k] < n) &&
    (forall k, l :: 0 <= k < l < n ==> p[k] != p[l])
  }

  predicate Fits(m: Matrix, p: seq<nat>)
  {
    |p| == |m| && forall k :: 0 <= k < |m| ==> p[k] < |m[k]|
  }

  /** The summed cells m[k][p[k]] of the matching `p`. */
  function Score(m: Matrix, p: seq<nat>): nat
    requires Fits(m, p)
    decreases |m|
  {
    if m == [] then 0 else Score(Front(m), p[..|p| - 1]) + m[|m| - 1][p[|p| - 1]]
  }

  /** Column numbers once column `i` is gone. */
  function Squeeze(q: seq<nat>, i: nat): (r: seq<nat>)
    requires forall k :: 0 <= k < |q| ==> q[k] != i
    ensures |r| == |q| && forall k :: 0 <= k < |q| ==> r[k] == if q[k] < i then q[k] else q[k] - 1
  {
    seq(|q|, k requires 0 <= k < |q| => if q[k] < i then q[k] else q[k] - 1)
  }

  /** Column numbers once column `i` is put back. */
  function Expand(q: seq<nat>, i: nat): (r: seq<nat>)
    ensures |r| == |q| && forall k :: 0 <= k < |q| ==> r[k] == if q[k] < i then q[k] else q[k] + 1
  {
    seq(|q|, k requires 0 <= k < |q| => if q[k] < i then q[k] else q[k] + 1)
  }

  /** Scoring without column `i` with renumbered columns is scoring with it. */
  lemma {:induction false} ScoreWithoutColumn(f: Matrix, q: seq<nat>, i: nat)
    requires forall k :: 0 <= k < |f| ==> i < |f[k]|
    requires Fits(f, q) && forall k :: 0 <= k < |q| ==> q[k] != i
    ensures Fits(RemoveColumn(f, i), Squeeze(q, i))
    ensures Score(RemoveColumn(f, i), Squeeze(q, i)) == Score(f, q)
    decreases |f|
  {
    if f != [] {
      var n := |f|;
      var r := RemoveColumn(f, i);
      assert Front(r) == RemoveColumn(Front(f), i);
      assert Squeeze(q, i)[..n - 1] == Squeeze(q[..n - 1], i);
      ScoreWithoutColumn(Front(f), q[..n - 1], i);
    }
  }

  lemma {:induction false} PickBelow(m: Matrix, i: nat, j: nat)
    requires Square(m) && i < j <= |m|
    ensures Pick(m, i) <= BestUpTo(m, j)
    decreases j
  {
    if i < j - 1 {
      PickBelow(m, i, j - 1);
    }
  }

  /** Some column of the last row reaches the running maximum. */
  lemma {:induction false} BestUpToReached(m: Matrix, j: nat) returns (i: nat)
    requires Square(m) && 0 < j <= |m|
    ensures i < j && BestUpTo(m, j) == Pick(m, i)
    decreases j
  {
    if j == 1 || BestUpTo(m, j - 1) < Pick(m, j - 1) {
      i := j - 1;
    } else {
      i := BestUpToReached(m, j - 1);
    }
  }

  /** The last row's column taken out of a matching leaves a matching of the minor. */
  lemma SqueezePerm(p: seq<nat>, n: nat)
    requires 0 < n && IsPerm(p, n)
    ensures forall k :: 0 <= k < n - 1 ==> p[k] != p[n - 1]
    ensures IsPerm(Squeeze(p[..n - 1], p[n - 1]), n - 1)
  {
    var q' := Squeeze(p[..n - 1], p[n - 1]);
    forall k, l | 0 <= k < l < n - 1
      ensures q'[k] != q'[l]
    {
      assert p[k] != p[l];
    }
  }

  /** No matching scores more than `Best`. */
  lemma {:induction false} BestUpper(m: Matrix, p: seq<nat>)
    requires Square(m) && IsPerm(p, |m|)
    ensures Fits(m, p) && Score(m, p) <= Best(m)
    decreases |m|
  {
    if m != [] {
      var n := |m|;
      var i, q, f := p[n - 1], p[..n - 1], Front(m);
      ScoreWithoutColumn(f, q, i);
      var q' := Squeeze(q, i);
      MinorSquare(m, i);
      SqueezePerm(p, n);
      BestUpper(RemoveColumn(f, i), q');
      PickBelow(m, i, n);
    }
  }

  /** Putting column `i` back into a matching of the minor, and giving it to the last row,
      is a matching of the whole. */
  lemma ExpandPerm(q': seq<nat>, i: nat, n: nat)
    requires 0 < n && IsPerm(q', n - 1) && i < n
    ensures forall k :: 0 <= k < |q'| ==> Expand(q', i)[k] != i
    ensures Squeeze(Expand(q', i), i) == q'
    ensures IsPerm(Expand(q', i) + [i], n)
  {
    var p := Expand(q', i) + [i];
    forall k, l | 0 <= k < l < n
      ensures p[k] != p[l]
    {
      if l < n - 1 {
        assert q'[k] != q'[l];
      }
    }
  }

  /** Some matching scores exactly `Best`. */
  lemma {:induction false} BestAttained(m: Matrix) returns (p: seq<nat>)
    requires Square(m)
    ensures IsPerm(p, |m|) && Fits(m, p) && Score(m, p) == Best(m)
    decreases |m|
  {
    if m == [] {
      p := [];
    } else {
      var n := |m|;
      var i := BestUpToReached(m, n);
      var f := Front(m);
      MinorSquare(m, i);
      var q' := BestAttained(RemoveColumn(f, i));
      var q := Expand(q', i);
      ExpandPerm(q', i, n);
      ScoreWithoutColumn(f, q, i);
      p := q + [i];
      assert p[..n - 1] == q;
    }
  }

  /** Column `i` of `m`. */
  function Column(m: Matrix, i: nat): (c: seq<nat>)
    requires forall k :: 0 <= k < |m| ==> i < |m[k]|
    ensures |c| == |m| && forall k :: 0 <= k < |m| ==> c[k] == m[k][i]
  {
    seq(|m|, k requires 0 <= k < |m| => m[k][i])
  }

  /** Every row of `m` with `c[k]` put in at `i`. */
  function InsertColumn(m: Matrix, i: nat, c: seq<nat>): (r: Matrix)
    requires |c| == |m| && forall k :: 0 <= k < |m| ==> i <= |m[k]|
    ensures |r| == |m| && forall k :: 0 <= k < |m| ==> r[k] == InsertAt(m[k], i, c[k])
  {
    seq(|m|, k requires 0 <= k < |m| => InsertAt(m[k], i, c[k]))
  }

  /** Reinserting a removed column restores the matrix. */
  lemma InsertRemovedColumn(m: Matrix, i: nat)
    requires forall k :: 0 <= k < |m| ==> i < |m[k]|
    ensures InsertColumn(RemoveColumn(m, i), i, Column(m, i)) == m
  {
    forall k | 0 <= k < |m|
      ensures InsertColumn(RemoveColumn(m, i), i, Column(m, i))[k] == m[k]
    {
      InsertRemoved(m[k], i);
    }
  }

  /** The matrix argument of `find_best_word_match`, which the search changes in place
      (pop, column removal, reinsertion, push) and hands back unchanged. */
  class WordMatrix {
    var rows: Matrix

    constructor (m: Matrix)
      ensures rows == m
    {
      rows := m;
    }

    /** The loop that removes column `i` from every row, collecting the removed cells. */
    method TakeColumn(i: nat) returns (col: seq<nat>)
      requires forall k :: 0 <= k < |rows| ==> i < |rows[k]|
      modifies this
      ensures rows == RemoveColumn(old(rows), i) && col == Column(old(rows), i)
    {
      ghost var m := rows;
      col := [];
      var j := 0;
      while j < |rows|
        invariant j <= |rows| == |m| && |col| == j
        invariant forall k :: 0 <= k < j ==> rows[k] == RemoveAt(m[k], i) && col[k] == m[k][i]
        invariant forall k :: j <= k < |rows| ==> rows[k] == m[k]
      {
        col := col + [rows[j][i]];
        rows := rows[j := RemoveAt(rows[j], i)];
        j := j + 1;
      }
    }

    /** The loop that inserts `col[j]` at `i` in row `j`. */
    method PutColumn(i: nat, col: seq<nat>)
      requires |col| == |rows| && forall k :: 0 <= k < |rows| ==> i <= |rows[k]|
      modifies this
      ensures rows == InsertColumn(old(rows), i, col)
    {
      ghost var m := rows;
      var j := 0;
      while j < |col|
        invariant j <= |col| == |rows| == |m|
        invariant forall k :: 0 <= k < j ==> rows[k] == InsertAt(m[k], i, col[k])
        invariant forall k :: j <= k < |rows| ==> rows[k] == m[k]
      {
        rows := rows[j := InsertAt(rows[j], i, col[j])];
        j := j + 1;
      }
    }

    /** The best total over all row-to-column bijections; `rows` is restored. */
    method FindBestWordMatch() returns (r: nat)
      requires Square(rows)
      modifies this
      ensures rows == old(rows) && r == Best(old(rows))
      decreases |rows|
    {
      var max := 0;
      if rows == [] {
        return max;
      }
      ghost var m := rows;
      var row := rows[|rows| - 1];
      rows := rows[..|rows| - 1];
      var i := 0;
      while i < |row|
        invariant i <= |row| == |m| && rows == Front(m) && max == BestUpTo(m, i)
      {
        var d := row[i];
        var col := TakeColumn(i);
        MinorSquare(m, i);
        var d2 := FindBestWordMatch();
        PutColumn(i, col);
        InsertRemovedColumn(Front(m), i);
        var s := d + d2;
        if s > max {
          max := s;
        }
        i := i + 1;
      }
      rows := rows + [row];
      r := max;
    }
  }

  // ---- wordwise_levenshtein ----

  /** The characters the inner `split` cuts whitespace-separated words at. */
  predicate IsWordBreak(c: char)
  {
    c == '(' || c == ')' || c == ':'
  }

  predicate IsTokenBreak(c: char)
  {
    IsWhitespace(c) || IsWordBreak(c)
  }

  /** `flat_map` of the `(`/`)`/`:` split over the words, empty pieces dropped. */
  function SplitEach(ws: seq<string>): seq<string>
  {
    if ws == [] then [] else Fields(ws[0], IsWordBreak) + SplitEach(ws[1..])
  }

  /** The inner `split`: `split_whitespace`, then each word cut at `(`, `)` and `:`;
      the same as one split at all four kinds of separator. */
  function Split(x: string): (r: seq<string>)
    ensures r == Fields(x, IsTokenBreak)
  {
    SplitFields(x);
    SplitEach(Fields(x, IsWhitespace))
  }

  /** The two-stage split is a single split at whitespace, `(`, `)` and `:`. */
  lemma {:induction false} SplitFields(x: string)
    ensures SplitEach(Fields(x, IsWhitespace)) == Fields(x, IsTokenBreak)
    decreases |x|
  {
    if x == [] {
    } else if IsWhitespace(x[0]) {
      SplitFields(x[1..]);
    } else {
      var w := Run(x, IsWhitespace);
      var rest := x[|w|..];
      var ws := Fields(rest, IsWhitespace);
      assert Fields(x, IsWhitespace) == [w] + ws;
      assert ([w] + ws)[1..] == ws;
      SplitFields(rest);
      FieldsAgree(w, IsWordBreak, IsTokenBreak);
      assert x == w + rest;
      FieldsSplitAt(w, rest, IsTokenBreak);
    }
  }

  /** Tokens are non-empty, hold no whitespace, `(`, `)` or `:`, and are the input's other
      characters in their left-to-right order. */
  lemma SplitTokens(x: string)
    ensures forall k :: 0 <= k < |Split(x)| ==> Split(x)[k] != [] && NoSep(Split(x)[k], IsTokenBreak)
    ensures Concat(Split(x)) == Kept(x, IsTokenBreak)
  {
    FieldsKept(x, IsTokenBreak);
  }

  /** A cell of the matrix: the longer length minus the distance. */
  ghost function Similarity(x: string, y: string): (s: nat)
    ensures s <= Min(|x|, |y|)
    ensures x == y ==> s == |x|
  {
    EditDistanceBounds(x, y);
    Max(|x|, |y|) - EditDistance(x, y)
  }

  /** The square similarity matrix of the token lists, padded with zero rows or columns
      up to the larger count. */
  ghost function SimilarityMatrix(ta: seq<string>, tb: seq<string>): (m: Matrix)
    ensures Square(m) && |m| == Max(|ta|, |tb|)
  {
    var n := Max(|ta|, |tb|);
    seq(n, k requires 0 <= k < n =>
      seq(n, l requires 0 <= l < n =>
        if k < |ta| && l < |tb| then Similarity(ta[k], tb[l]) else 0))
  }

  lemma SimilarityCell(ta: seq<string>, tb: seq<string>, k: nat, l: nat)
    requires k < Max(|ta|, |tb|) && l < Max(|ta|, |tb|)
    ensures SimilarityMatrix(ta, tb)[k][l] ==
      if k < |ta| && l < |tb| then Similarity(ta[k], tb[l]) else 0
  {
  }

  /** The word-wise score of two names: the best total similarity of a pairing of their
      tokens. */
  ghost function WordwiseScore(a: string, b: string): nat
  {
    Best(SimilarityMatrix(Split(a), Split(b)))
  }

  /** wordwise_levenshtein computes the word-wise score. */
  method WordwiseLevenshtein(a: string, b: string) returns (r: nat)
    ensures r == WordwiseScore(a, b)
  {
    var wa, wb := Split(a), Split(b);
    var anum, bnum := |wa|, |wb|;
    var maxwordnum := Max(anum, bnum);
    ghost var sm := SimilarityMatrix(wa, wb);
    var d: Matrix := [];
    var k := 0;
    while k < anum
      invariant k <= anum && d == sm[..k]
    {
      var row := WordRow(wa, wb, k);
      PrefixStep(sm, d, k);
      d := d + [row];
      k := k + 1;
    }
    // bnum > anum: add rows
    while k < maxwordnum
      invariant anum <= k <= maxwordnum && d == sm[..k]
    {
      var row := ZeroRow(wa, wb, k);
      PrefixStep(sm, d, k);
      d := d + [row];
      k := k + 1;
    }
    assert d == sm;
    var matrix := new WordMatrix(d);
    r := matrix.FindBestWordMatch();
  }

  /** The row of the `k`-th token of `a` (the body of the loop over `words.a`): the
      similarity to every token of `b`, then zeros up to the larger count. */
  method WordRow(wa: seq<string>, wb: seq<string>, k: nat) returns (row: seq<nat>)
    requires k < |wa|
    ensures row == SimilarityMatrix(wa, wb)[k]
  {
    ghost var target := SimilarityMatrix(wa, wb)[k];
    row := [];
    var l := 0;
    while l < |wb|
      invariant l <= |wb| && row == target[..l]
    {
      var v := SimilarityAt(wa, wb, k, l);
      PrefixStep(target, row, l);
      row := row + [v];
      l := l + 1;
    }
    // anum > bnum: add columns
    row := PadRow(wa, wb, k, row);
  }

  /** One cell of the row: the longer length of the two tokens less their distance. */
  method SimilarityAt(wa: seq<string>, wb: seq<string>, k: nat, l: nat) returns (v: nat)
    requires k < |wa| && l < |wb|
    ensures v == SimilarityMatrix(wa, wb)[k][l]
  {
    var aword, bword := wa[k], wb[l];
    var lev := Levenshtein.Levenshtein(aword, bword);
    SimilarityValue(wa, wb, k, l, lev.distance);
    v := Max(|aword|, |bword|) - lev.distance;
  }

  /** The columns past the tokens of `b` hold 0. */
  method PadRow(wa: seq<string>, wb: seq<string>, k: nat, row0: seq<nat>) returns (row: seq<nat>)
    requires k < |wa| && row0 == SimilarityMatrix(wa, wb)[k][..|wb|]
    ensures row == SimilarityMatrix(wa, wb)[k]
  {
    ghost var target := SimilarityMatrix(wa, wb)[k];
    var maxwordnum := Max(|wa|, |wb|);
    row := row0;
    var l := |wb|;
    while l < maxwordnum
      invariant |wb| <= l <= maxwordnum && row == target[..l]
    {
      SimilarityCell(wa, wb, k, l);
      PrefixStep(target, row, l);
      row := row + [0];
      l := l + 1;
    }
    assert row == target;
  }

  /** A row of zeros, one per token of `b`, for a token missing from `a`. */
  method ZeroRow(wa: seq<string>, wb: seq<string>, k: nat) returns (row: seq<nat>)
    requires |wa| <= k < Max(|wa|, |wb|)
    ensures row == SimilarityMatrix(wa, wb)[k]
  {
    row := [];
    var l := 0;
    while l < |wb|
      invariant l <= |wb| && |row| == l && forall y :: 0 <= y < l ==> row[y] == 0
    {
      row := row + [0];
      l := l + 1;
    }
    PaddingRow(wa, wb, k, row);
  }

  /** A row past the tokens of `a` holds only zeros. */
  lemma PaddingRow(ta: seq<string>, tb: seq<string>, k: nat, row: seq<nat>)
    requires |ta| <= k < Max(|ta|, |tb|)
    requires |row| == |tb| && forall y :: 0 <= y < |row| ==> row[y] == 0
    ensures row == SimilarityMatrix(ta, tb)[k]
  {
  }

  lemma PrefixStep<T>(s: seq<T>, row: seq<T>, l: nat)
    requires l < |s| && row == s[..l]
    ensures row + [s[l]] == s[..l + 1]
  {
  }

  /** The cell the source computes from the returned distance: no underflow, and the
      value of the specified matrix. */
  lemma SimilarityValue(ta: seq<string>, tb: seq<string>, k: nat, l: nat, dist: nat)
    requires k < |ta| && l < |tb| && dist == EditDistance(ta[k], tb[l])
    ensures dist <= Max(|ta[k]|, |tb[l]|)
    ensures Max(|ta[k]|, |tb[l]|) - dist == SimilarityMatrix(ta, tb)[k][l]
  {
    EditDistanceBounds(ta[k], tb[l]);
    SimilarityCell(ta, tb, k, l);
  }

  /** The summed char lengths of the tokens. */
  function TotalLength(ws: seq<string>): nat
  {
    if ws == [] then 0 else TotalLength(ws[..|ws| - 1]) + |ws[|ws| - 1]|
  }

  /** A matching scores at most the summed bounds of its rows. */
  lemma {:induction false} ScoreBelow(m: Matrix, p: seq<nat>, w: seq<string>)
    requires Fits(m, p) && |w| == |m|
    requires forall k, c :: 0 <= k < |m| && 0 <= c < |m[k]| ==> m[k][c] <= |w[k]|
    ensures Score(m, p) <= TotalLength(w)
    decreases |m|
  {
    if m != [] {
      ScoreBelow(Front(m), p[..|p| - 1], w[..|w| - 1]);
    }
  }

  /** The identity matching scores the diagonal. */
  lemma {:induction false} ScoreDiagonal(m: Matrix, w: seq<string>)
    requires |w| == |m| && forall k :: 0 <= k < |m| ==> k < |m[k]| && m[k][k] == |w[k]|
    ensures Fits(m, seq(|m|, k => k)) && Score(m, seq(|m|, k => k)) == TotalLength(w)
    decreases |m|
  {
    if m != [] {
      var n := |m|;
      assert seq(n, k => k)[..n - 1] == seq(n - 1, k => k);
      ScoreDiagonal(Front(m), w[..n - 1]);
    }
  }

  lemma SelfMatrix(t: seq<string>)
    ensures var m := SimilarityMatrix(t, t);
      |m| == |t| && (forall k :: 0 <= k < |m| ==> k < |m[k]| && m[k][k] == |t[k]|) &&
      (forall k, c :: 0 <= k < |m| && 0 <= c < |m[k]| ==> m[k][c] <= |t[k]|)
  {
    var m := SimilarityMatrix(t, t);
    forall k, c | 0 <= k < |m| && 0 <= c < |m[k]|
      ensures m[k][c] <= |t[k]| && (c == k ==> m[k][c] == |t[k]|)
    {
      SimilarityCell(t, t, k, c);
    }
  }

  /** A name compared word-wise with itself scores the char length of all its tokens. */
  lemma WordwiseSelf(a: string)
    ensures Best(SimilarityMatrix(Split(a), Split(a))) == TotalLength(Split(a))
  {
    var t := Split(a);
    var m := SimilarityMatrix(t, t);
    var id := seq(|m|, k => k);
    SelfMatrix(t);
    ScoreDiagonal(m, t);
    BestUpper(m, id);
    var p := BestAttained(m);
    ScoreBelow(m, p, t);
  }

  /** The zero padding of a token list adds no length. */
  lemma {:induction false} TotalLengthPad(ws: seq<string>, n: nat)
    ensures TotalLength(ws + seq(n, _ => "")) == TotalLength(ws)
    decreases n
  {
    if n == 0 {
      assert ws + seq(n, _ => "") == ws;
    } else {
      var p := ws + seq(n, _ => "");
      assert p[..|p| - 1] == ws + seq(n - 1, _ => "");
      TotalLengthPad(ws, n - 1);
    }
  }

  /** No name scores more against `a` than the summed length of `a`'s tokens. */
  lemma WordwiseAtMost(a: string, b: string)
    ensures WordwiseScore(a, b) <= TotalLength(Split(a))
  {
    TokensAtMost(Split(a), Split(b));
  }

  /** No pairing of two token lists scores more than the summed length of the first. */
  lemma TokensAtMost(ta: seq<string>, tb: seq<string>)
    ensures Best(SimilarityMatrix(ta, tb)) <= TotalLength(ta)
  {
    var m := SimilarityMatrix(ta, tb);
    var w := ta + seq(|m| - |ta|, _ => "");
    CellsWithinTokens(ta, tb);
    var p := BestAttained(m);
    ScoreBelow(m, p, w);
    TotalLengthPad(ta, |m| - |ta|);
  }

  /** A cell is at most the length of its row's token; padding rows have the empty token. */
  lemma CellsWithinTokens(ta: seq<string>, tb: seq<string>)
    ensures var m := SimilarityMatrix(ta, tb);
      var w := ta + seq(|m| - |ta|, _ => "");
      |w| == |m| && forall k, c :: 0 <= k < |m| && 0 <= c < |m[k]| ==> m[k][c] <= |w[k]|
  {
    var m := SimilarityMatrix(ta, tb);
    var w := ta + seq(|m| - |ta|, _ => "");
    forall k, c | 0 <= k < |m| && 0 <= c < |m[k]|
      ensures m[k][c] <= |w[k]|
    {
      SimilarityCell(ta, tb, k, c);
    }
  }

  /** The name itself scores highest against a name: a cafeteria whose lowered name is the
      argument comes first. */
  lemma WordwiseExactBest(a: string, b: string)
    ensures WordwiseScore(a, b) <= WordwiseScore(a, a)
  {
    WordwiseAtMost(a, b);
    WordwiseSelf(a);
  }
}
