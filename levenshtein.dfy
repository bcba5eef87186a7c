/** The character-level edit distance of src/levenshtein.rs: `VecReplace::replace` and
    the single-row dynamic programme `levenshtein`. The rows the programme computes are
    specified by `Rows`; every cell of them is proved to be a well-formed script that
    replays its prefix of `a` into its prefix of `b` at the least possible cost. */
module Levenshtein {
  import opened Wrappers
  import opened EditScript

  // ---- VecReplace::replace -------------------------------------------------------

  /** `v.replace(i, item)`: push `item`, then `swap_remove(i)`. Index `i == |v|` removes
      the element just pushed; a larger index panics in the source. */
  method Replace<T>(v: seq<T>, i: nat, item: T) returns (v': seq<T>, prev: T)
    requires i <= |v|
    ensures |v'| == |v|
    ensures i < |v| ==> v' == v[i := item] && prev == v[i]
    ensures i == |v| ==> v' == v && prev == item
  {
    var w := v + [item];
    prev := w[i];
    w := w[i := w[|w| - 1]];
    v' := w[..|w| - 1];
  }

  // ---- Replay --------------------------------------------------------------------

  /** Replaying `ops` against `x` rebuilds `y`: Keep copies a character of `x`, Subst
      consumes one of `x` and emits one of `y`, Delete consumes one of `x`, Insert emits
      one of `y`. Stated from the last operation backwards. */
  ghost predicate Aligns(ops: seq<Operation>, x: string, y: string)
    decreases |ops|
  {
    if ops == [] then x == [] && y == []
    else
      var p := ops[..|ops| - 1];
      match ops[|ops| - 1]
      case Keep =>
        |x| > 0 && |y| > 0 && x[|x| - 1] == y[|y| - 1] && Aligns(p, x[..|x| - 1], y[..|y| - 1])
      case Subst => |x| > 0 && |y| > 0 && Aligns(p, x[..|x| - 1], y[..|y| - 1])
      case Insert => |y| > 0 && Aligns(p, x, y[..|y| - 1])
      case Delete => |x| > 0 && Aligns(p, x[..|x| - 1], y)
  }

  /** No script replaying `x` into `y` costs less than `n`. */
  ghost predicate CostBound(n: nat, x: string, y: string) {
    forall ops :: Aligns(ops, x, y) ==> n <= Cost(ops)
  }

  /** `ops` replays `x` into `y` and no replay costs less. */
  ghost predicate Optimal(ops: seq<Operation>, x: string, y: string) {
    Aligns(ops, x, y) && CostBound(Cost(ops), x, y)
  }

  /** An Insert emitting `c` extends a replay of `x` into `y`. */
  lemma AlignsInsert(ops: seq<Operation>, x: string, y: string, c: char)
    requires Aligns(ops, x, y)
    ensures Aligns(ops + [Insert], x, y + [c])
  {
    assert (ops + [Insert])[..|ops|] == ops;
    assert (y + [c])[..|y|] == y;
  }

  /** A Delete consuming `c` extends a replay of `x` into `y`. */
  lemma AlignsDelete(ops: seq<Operation>, x: string, y: string, c: char)
    requires Aligns(ops, x, y)
    ensures Aligns(ops + [Delete], x + [c], y)
  {
    assert (ops + [Delete])[..|ops|] == ops;
    assert (x + [c])[..|x|] == x;
  }

  /** A Subst consuming `cx` and emitting `cy` extends a replay of `x` into `y`. */
  lemma AlignsSubst(ops: seq<Operation>, x: string, y: string, cx: char, cy: char)
    requires Aligns(ops, x, y)
    ensures Aligns(ops + [Subst], x + [cx], y + [cy])
  {
    assert (ops + [Subst])[..|ops|] == ops;
    assert (x + [cx])[..|x|] == x && (y + [cy])[..|y|] == y;
  }

  /** The diagonal step for characters `ca` of `a` and `cb` of `b`: Keep when they are
      equal, Subst otherwise. */
  function Diagonal(ca: char, cb: char): (op: Operation)
    ensures op.Keep? <==> ca == cb
    ensures op.Keep? || op.Subst?
  {
    if ca == cb then Keep else Subst
  }

  /** A diagonal step extends a replay of `x` into `y`. */
  lemma AlignsDiagonal(ops: seq<Operation>, x: string, y: string, ca: char, cb: char)
    requires Aligns(ops, x, y)
    ensures Aligns(ops + [Diagonal(ca, cb)], x + [ca], y + [cb])
  {
    assert (ops + [Diagonal(ca, cb)])[..|ops|] == ops;
    assert (x + [ca])[..|x|] == x;
    assert (y + [cb])[..|y|] == y;
  }

  /** On equal costs `min(min(insert, delete), subst)` prefers Insert, then Delete,
      then the diagonal step, because std::cmp::min returns its first argument on a
      tie. */
  lemma CellPreference(insert: Distance, delete: Distance, subst: Distance)
    ensures var m := MinDistance(MinDistance(insert, delete), subst);
      (insert.distance <= delete.distance && insert.distance <= subst.distance ==> m == insert) &&
      (delete.distance < insert.distance && delete.distance <= subst.distance ==> m == delete) &&
      (subst.distance < insert.distance && subst.distance < delete.distance ==> m == subst)
  {
  }

  // ---- Lower bounds -------------------------------------------------------------

  /** The cost of a non-empty script is that of all but its last step, plus one unless
      that step is Keep. */
  lemma CostLast(ops: seq<Operation>)
    requires ops != []
    ensures Cost(ops) == Cost(ops[..|ops| - 1]) + if ops[|ops| - 1].Keep? then 0 else 1
  {
  }

  /** In the top row every replay ends in an Insert. */
  lemma TopBound(n: nat, y: string, c: char)
    requires CostBound(n, [], y)
    ensures CostBound(n + 1, [], y + [c])
  {
    forall ops | Aligns(ops, [], y + [c])
      ensures n + 1 <= Cost(ops)
    {
      CostLast(ops);
      assert (y + [c])[..|y|] == y;
    }
  }

  /** In the left column every replay ends in a Delete. */
  lemma LeftBound(n: nat, x: string, c: char)
    requires CostBound(n, x, [])
    ensures CostBound(n + 1, x + [c], [])
  {
    forall ops | Aligns(ops, x + [c], [])
      ensures n + 1 <= Cost(ops)
    {
      CostLast(ops);
      assert (x + [c])[..|x|] == x;
    }
  }

  /** Elsewhere a replay ends in an Insert, a Delete or a diagonal step, so it costs at
      least the cheapest of the three ways to reach the cell. */
  lemma InnerBound(insert: nat, delete: nat, subst: nat, x: string, y: string, ca: char, cb: char)
    requires CostBound(insert, x + [ca], y) && CostBound(delete, x, y + [cb]) && CostBound(subst, x, y)
    ensures CostBound(Min(Min(insert + 1, delete + 1), subst + if ca == cb then 0 else 1), x + [ca], y + [cb])
  {
    forall ops | Aligns(ops, x + [ca], y + [cb])
      ensures Min(Min(insert + 1, delete + 1), subst + if ca == cb then 0 else 1) <= Cost(ops)
    {
      CostLast(ops);
      assert (x + [ca])[..|x|] == x;
      assert (y + [cb])[..|y|] == y;
    }
  }

  /** `std::cmp::min` on two scripts, seen through their operations: the first unless
      the second costs strictly less. */
  ghost function Cheaper(x: seq<Operation>, y: seq<Operation>): (m: seq<Operation>)
    ensures (m == x || m == y) && Cost(m) == Min(Cost(x), Cost(y))
  {
    if Cost(y) < Cost(x) then y else x
  }

  /** Appending one operation adds its cost. */
  lemma CostExtend(ops: seq<Operation>, op: Operation)
    ensures Cost(ops + [op]) == Cost(ops) + if op.Keep? then 0 else 1
  {
    CostLast(ops + [op]);
    assert (ops + [op])[..|ops|] == ops;
  }

  /** The first row: Insert extends the cheapest script of the cell to the left. */
  lemma TopOptimal(ops: seq<Operation>, y: string, c: char)
    requires Optimal(ops, [], y)
    ensures Optimal(ops + [Insert], [], y + [c])
  {
    AlignsInsert(ops, [], y, c);
    CostExtend(ops, Insert);
    TopBound(Cost(ops), y, c);
  }

  /** The first column: Delete extends the cheapest script of the cell above. */
  lemma LeftOptimal(ops: seq<Operation>, x: string, c: char)
    requires Optimal(ops, x, [])
    ensures Optimal(ops + [Delete], x + [c], [])
  {
    AlignsDelete(ops, x, [], c);
    CostExtend(ops, Delete);
    LeftBound(Cost(ops), x, c);
  }

  /** Any other cell: the source's `min(min(insert, delete), subst)` of the three
      extended neighbours is a cheapest script for the extended prefixes. */
  lemma InnerOptimal(insert: seq<Operation>, delete: seq<Operation>, subst: seq<Operation>,
                     x: string, y: string, ca: char, cb: char)
    requires Optimal(insert, x + [ca], y) && Optimal(delete, x, y + [cb]) && Optimal(subst, x, y)
    ensures Optimal(Cheaper(Cheaper(insert + [Insert], delete + [Delete]), subst + [Diagonal(ca, cb)]),
      x + [ca], y + [cb])
  {
    AlignsInsert(insert, x + [ca], y, cb);
    AlignsDelete(delete, x, y + [cb], ca);
    AlignsDiagonal(subst, x, y, ca, cb);
    CostExtend(insert, Insert);
    CostExtend(delete, Delete);
    CostExtend(subst, Diagonal(ca, cb));
    InnerBound(Cost(insert), Cost(delete), Cost(subst), x, y, ca, cb);
  }

  // ---- The cheapest scripts, as operation lists ---------------------------------

  /** Cell j of the first row: `j` Inserts. */
  ghost function TopCell(j: nat): (ops: seq<Operation>)
    ensures |ops| == j
  {
    seq(j, _ => Insert)
  }

  /** Cell j of the row that follows `prev` for the character `ca` of `a`: cell 0
      deletes, every other cell is the source's `min(min(insert, delete), subst)` of the
      cell to its left, the cell above and the cell above-left. */
  ghost function RowCell(prev: seq<seq<Operation>>, ca: char, b: string, j: nat): seq<Operation>
    requires |prev| == |b| + 1 && j <= |b|
  {
    if j == 0 then prev[0] + [Delete]
    else
      Cheaper(Cheaper(
        RowCell(prev, ca, b, j - 1) + [Insert],
        prev[j] + [Delete]),
        prev[j - 1] + [Diagonal(ca, b[j - 1])])
  }

  /** The first row, for `n` characters of `b`. */
  ghost function TopCells(n: nat): (row: seq<seq<Operation>>)
    ensures |row| == n + 1
  {
    seq(n + 1, j requires 0 <= j => TopCell(j))
  }

  /** The row that follows `prev` for the character `ca` of `a`. */
  ghost function NextCells(prev: seq<seq<Operation>>, ca: char, b: string): (row: seq<seq<Operation>>)
    requires |prev| == |b| + 1
    ensures |row| == |b| + 1
  {
    seq(|b| + 1, j requires 0 <= j <= |b| => RowCell(prev, ca, b, j))
  }

  /** The operations of the row `lev` holds after the first `i` characters of `a`. */
  ghost function Rows(a: string, b: string, i: nat): (row: seq<seq<Operation>>)
    requires i <= |a|
    ensures |row| == |b| + 1
  {
    if i == 0 then TopCells(|b|) else NextCells(Rows(a, b, i - 1), a[i - 1], b)
  }

  /** The empty script is the cheapest way to turn the empty string into itself. */
  lemma EmptyOptimal()
    ensures Optimal([], [], [])
  {
    forall ops | Aligns(ops, [], [])
      ensures 0 <= Cost(ops)
    {
    }
  }

  /** Cell j of the first row is a cheapest script from the empty string to b[..j]. */
  lemma {:induction false} TopRowOptimal(b: string, j: nat)
    requires j <= |b|
    ensures Optimal(TopCell(j), [], b[..j])
  {
    if j == 0 {
      assert b[..0] == [];
      EmptyOptimal();
    } else {
      TopRowOptimal(b, j - 1);
      assert TopCell(j) == TopCell(j - 1) + [Insert];
      assert b[..j] == b[..j - 1] + [b[j - 1]];
      TopOptimal(TopCell(j - 1), b[..j - 1], b[j - 1]);
    }
  }

  /** Cell j of a following row is a cheapest script once the cell to its left and
      the two cells above are. */
  lemma RowCellStep(prev: seq<seq<Operation>>, x: string, ca: char, b: string, j: nat)
    requires |prev| == |b| + 1 && 0 < j <= |b|
    requires Optimal(RowCell(prev, ca, b, j - 1), x + [ca], b[..j - 1])
    requires Optimal(prev[j], x, b[..j]) && Optimal(prev[j - 1], x, b[..j - 1])
    ensures Optimal(RowCell(prev, ca, b, j), x + [ca], b[..j])
  {
    assert b[..j] == b[..j - 1] + [b[j - 1]];
    InnerOptimal(RowCell(prev, ca, b, j - 1), prev[j], prev[j - 1], x, b[..j - 1], ca, b[j - 1]);
  }

  /** Cell j of a following row is a cheapest script once the row above is. */
  lemma {:induction false} RowCellOptimal(prev: seq<seq<Operation>>, x: string, ca: char, b: string, j: nat)
    requires |prev| == |b| + 1 && j <= |b|
    requires forall k :: 0 <= k <= |b| ==> Optimal(prev[k], x, b[..k])
    ensures Optimal(RowCell(prev, ca, b, j), x + [ca], b[..j])
    decreases j
  {
    if j == 0 {
      assert b[..0] == [];
      LeftOptimal(prev[0], x, ca);
    } else {
      if j > 1 {
        RowCellOptimal(prev, x, ca, b, j - 1);
      } else {
        assert b[..0] == [];
        LeftOptimal(prev[0], x, ca);
      }
      RowCellStep(prev, x, ca, b, j);
    }
  }

  /** Every cell of every row is a cheapest script for its two prefixes. */
  lemma {:induction false} RowsOptimal(a: string, b: string, i: nat)
    requires i <= |a|
    ensures forall j :: 0 <= j <= |b| ==> Optimal(Rows(a, b, i)[j], a[..i], b[..j])
  {
    if i == 0 {
      forall j | 0 <= j <= |b|
        ensures Optimal(Rows(a, b, 0)[j], a[..0], b[..j])
      {
        TopRowOptimal(b, j);
      }
    } else {
      RowsOptimal(a, b, i - 1);
      assert a[..i] == a[..i - 1] + [a[i - 1]];
      forall j | 0 <= j <= |b|
        ensures Optimal(Rows(a, b, i)[j], a[..i], b[..j])
      {
        RowCellOptimal(Rows(a, b, i - 1), a[..i - 1], a[i - 1], b, j);
      }
    }
  }

  // ---- What a cheapest script costs ---------------------------------------------

  /** Substitute along the common length, then delete or insert the rest. */
  ghost function Naive(x: string, y: string): (ops: seq<Operation>)
    decreases |x| + |y|
  {
    if x == [] && y == [] then []
    else if x == [] then Naive(x, y[..|y| - 1]) + [Insert]
    else if y == [] then Naive(x[..|x| - 1], y) + [Delete]
    else Naive(x[..|x| - 1], y[..|y| - 1]) + [Subst]
  }

  /** The naive script replays `x` into `y` and costs the longer length. */
  lemma {:induction false} NaiveAligns(x: string, y: string)
    ensures NaiveFits(x, y)
    decreases |x| + |y|
  {
    if x == [] && y == [] {
    } else if x == [] {
      NaiveAligns(x, y[..|y| - 1]);
      NaiveInsert(y);
    } else if y == [] {
      NaiveAligns(x[..|x| - 1], y);
      NaiveDelete(x);
    } else {
      NaiveAligns(x[..|x| - 1], y[..|y| - 1]);
      NaiveSubst(x, y);
    }
  }

  ghost predicate NaiveFits(x: string, y: string)
  {
    Aligns(Naive(x, y), x, y) && Cost(Naive(x, y)) == Max(|x|, |y|)
  }

  lemma NaiveInsert(y: string)
    requires y != [] && NaiveFits([], y[..|y| - 1])
    ensures NaiveFits([], y)
  {
    var y' := y[..|y| - 1];
    AlignsInsert(Naive([], y'), [], y', y[|y| - 1]);
    assert y' + [y[|y| - 1]] == y;
    CostExtend(Naive([], y'), Insert);
  }

  lemma NaiveDelete(x: string)
    requires x != [] && NaiveFits(x[..|x| - 1], [])
    ensures NaiveFits(x, [])
  {
    var x' := x[..|x| - 1];
    AlignsDelete(Naive(x', []), x', [], x[|x| - 1]);
    assert x' + [x[|x| - 1]] == x;
    CostExtend(Naive(x', []), Delete);
  }

  lemma NaiveSubst(x: string, y: string)
    requires x != [] && y != [] && NaiveFits(x[..|x| - 1], y[..|y| - 1])
    ensures NaiveFits(x, y)
  {
    var x', y' := x[..|x| - 1], y[..|y| - 1];
    AlignsSubst(Naive(x', y'), x', y', x[|x| - 1], y[|y| - 1]);
    assert x' + [x[|x| - 1]] == x && y' + [y[|y| - 1]] == y;
    CostExtend(Naive(x', y'), Subst);
  }

  /** Every replay costs at least the difference of the two lengths. */
  lemma {:induction false} AlignsLengths(ops: seq<Operation>, x: string, y: string)
    requires Aligns(ops, x, y)
    ensures |x| - |y| <= Cost(ops) && |y| - |x| <= Cost(ops)
    decreases |ops|
  {
    if ops != [] {
      CostLast(ops);
      var p := ops[..|ops| - 1];
      match ops[|ops| - 1]
      case Keep => AlignsLengths(p, x[..|x| - 1], y[..|y| - 1]);
      case Subst => AlignsLengths(p, x[..|x| - 1], y[..|y| - 1]);
      case Insert => AlignsLengths(p, x, y[..|y| - 1]);
      case Delete => AlignsLengths(p, x[..|x| - 1], y);
    }
  }

  /** A replay that costs nothing keeps every character, so `x` and `y` are equal. */
  lemma {:induction false} FreeAlignsEqual(ops: seq<Operation>, x: string, y: string)
    requires Aligns(ops, x, y) && Cost(ops) == 0
    ensures x == y
    decreases |ops|
  {
    if ops != [] {
      CostLast(ops);
      FreeAlignsEqual(ops[..|ops| - 1], x[..|x| - 1], y[..|y| - 1]);
      assert x == x[..|x| - 1] + [x[|x| - 1]];
      assert y == y[..|y| - 1] + [y[|y| - 1]];
    }
  }

  /** Keeping every character replays `x` into itself. */
  lemma {:induction false} KeepsAlign(x: string)
    ensures Aligns(seq(|x|, _ => Keep), x, x)
    decreases |x|
  {
    if x != [] {
      var x' := x[..|x| - 1];
      KeepsAlign(x');
      assert seq(|x|, _ => Keep)[..|x| - 1] == seq(|x'|, _ => Keep);
    }
  }

  /** A cheapest replay costs at most the longer and at least the difference of the
      two lengths, and nothing exactly when the strings are equal. */
  lemma OptimalCost(ops: seq<Operation>, x: string, y: string)
    requires Optimal(ops, x, y)
    ensures Cost(ops) <= Max(|x|, |y|)
    ensures |x| - |y| <= Cost(ops) && |y| - |x| <= Cost(ops)
    ensures Cost(ops) == 0 <==> x == y
  {
    NaiveAligns(x, y);
    AlignsLengths(ops, x, y);
    if Cost(ops) == 0 {
      FreeAlignsEqual(ops, x, y);
    }
    if x == y {
      KeepsAlign(x);
      CostZero(seq(|x|, _ => Keep));
    }
  }

  /** A script of Keeps costs nothing. */
  lemma {:induction false} CostZero(ops: seq<Operation>)
    requires forall k :: 0 <= k < |ops| ==> ops[k] == Keep
    ensures Cost(ops) == 0
    decreases |ops|
  {
    if ops != [] {
      CostLast(ops);
      CostZero(ops[..|ops| - 1]);
    }
  }

  /** The cheapest script for all of `a` and `b`: the last cell of the last row. */
  ghost function Cheapest(a: string, b: string): seq<Operation> {
    Rows(a, b, |a|)[|b|]
  }

  /** The Levenshtein distance of `a` and `b`. */
  ghost function EditDistance(a: string, b: string): nat {
    Cost(Cheapest(a, b))
  }

  /** The cheapest script replays `a` into `b` and no replay costs less. */
  lemma CheapestOptimal(a: string, b: string)
    ensures Optimal(Cheapest(a, b), a, b)
  {
    RowsOptimal(a, b, |a|);
    assert a[..|a|] == a && b[..|b|] == b;
  }

  /** The distance is at most the longer length, so `max(len) - distance` in
      `wordwise_levenshtein` cannot underflow; it is at least the difference of the
      lengths; it is zero exactly for equal strings. */
  lemma EditDistanceBounds(a: string, b: string)
    ensures EditDistance(a, b) <= Max(|a|, |b|)
    ensures |a| - |b| <= EditDistance(a, b) && |b| - |a| <= EditDistance(a, b)
    ensures EditDistance(a, b) == 0 <==> a == b
  {
    CheapestOptimal(a, b);
    OptimalCost(Cheapest(a, b), a, b);
  }

  // ---- Symmetry and the triangle inequality ---------------------------------------

  /** The operation that undoes `op` when a replay is read the other way round:
      Insert and Delete trade places, Keep and Subst stay. */
  function Mirror(op: Operation): (r: Operation)
    ensures r.Keep? <==> op.Keep?
    ensures r.Insert? <==> op.Delete?
    ensures r.Delete? <==> op.Insert?
  {
    match op
    case Insert => Delete
    case Delete => Insert
    case other => other
  }

  /** A script read the other way round: every operation mirrored. */
  function Swap(ops: seq<Operation>): (r: seq<Operation>)
    ensures |r| == |ops|
    ensures forall k :: 0 <= k < |ops| ==> r[k] == Mirror(ops[k])
  {
    seq(|ops|, k requires 0 <= k < |ops| => Mirror(ops[k]))
  }

  /** A replay of `x` into `y`, mirrored, replays `y` into `x` at the same cost. */
  lemma {:induction false} AlignsSwap(ops: seq<Operation>, x: string, y: string)
    requires Aligns(ops, x, y)
    ensures Aligns(Swap(ops), y, x)
    ensures Cost(Swap(ops)) == Cost(ops)
  {
    if ops != [] {
      var p := ops[..|ops| - 1];
      assert Swap(ops)[..|ops| - 1] == Swap(p);
      CostLast(ops);
      CostLast(Swap(ops));
      match ops[|ops| - 1]
      case Keep => AlignsSwap(p, x[..|x| - 1], y[..|y| - 1]);
      case Subst => AlignsSwap(p, x[..|x| - 1], y[..|y| - 1]);
      case Insert => AlignsSwap(p, x, y[..|y| - 1]);
      case Delete => AlignsSwap(p, x[..|x| - 1], y);
    }
  }

  /** The distance does not depend on the order of its arguments. */
  lemma EditDistanceSymmetric(a: string, b: string)
    ensures EditDistance(a, b) == EditDistance(b, a)
  {
    CheapestOptimal(a, b);
    CheapestOptimal(b, a);
    AlignsSwap(Cheapest(a, b), a, b);
    AlignsSwap(Cheapest(b, a), b, a);
  }

  /** A replay `p` of `x` into `y` followed by a replay `q` of `y` into `z` gives a
      replay of `x` into `z` that costs no more than both together. Built from the last
      operations backwards: an Insert of `q` emits into `z`, a Delete of `p` consumes
      from `x`, and otherwise the character `p` emits last is the one `q` consumes
      last, so the two steps merge into one. */
  lemma {:induction false} Compose(p: seq<Operation>, x: string, y: string, q: seq<Operation>, z: string)
    returns (r: seq<Operation>)
    requires Aligns(p, x, y) && Aligns(q, y, z)
    ensures Aligns(r, x, z)
    ensures Cost(r) <= Cost(p) + Cost(q)
    decreases |p| + |q|
  {
    if q == [] {
      r := p;
    } else if p == [] {
      r := q;
    } else {
      var p', q' := p[..|p| - 1], q[..|q| - 1];
      CostLast(p);
      CostLast(q);
      if q[|q| - 1].Insert? {
        var r' := Compose(p, x, y, q', z[..|z| - 1]);
        AlignsInsert(r', x, z[..|z| - 1], z[|z| - 1]);
        assert z[..|z| - 1] + [z[|z| - 1]] == z;
        CostExtend(r', Insert);
        r := r' + [Insert];
      } else if p[|p| - 1].Delete? {
        var r' := Compose(p', x[..|x| - 1], y, q, z);
        AlignsDelete(r', x[..|x| - 1], z, x[|x| - 1]);
        assert x[..|x| - 1] + [x[|x| - 1]] == x;
        CostExtend(r', Delete);
        r := r' + [Delete];
      } else if p[|p| - 1].Insert? && q[|q| - 1].Delete? {
        r := Compose(p', x, y[..|y| - 1], q', z);
      } else if p[|p| - 1].Insert? {
        var r' := Compose(p', x, y[..|y| - 1], q', z[..|z| - 1]);
        AlignsInsert(r', x, z[..|z| - 1], z[|z| - 1]);
        assert z[..|z| - 1] + [z[|z| - 1]] == z;
        CostExtend(r', Insert);
        r := r' + [Insert];
      } else if q[|q| - 1].Delete? {
        var r' := Compose(p', x[..|x| - 1], y[..|y| - 1], q', z);
        AlignsDelete(r', x[..|x| - 1], z, x[|x| - 1]);
        assert x[..|x| - 1] + [x[|x| - 1]] == x;
        CostExtend(r', Delete);
        r := r' + [Delete];
      } else {
        var r' := Compose(p', x[..|x| - 1], y[..|y| - 1], q', z[..|z| - 1]);
        var op := Diagonal(x[|x| - 1], z[|z| - 1]);
        AlignsDiagonal(r', x[..|x| - 1], z[..|z| - 1], x[|x| - 1], z[|z| - 1]);
        assert x[..|x| - 1] + [x[|x| - 1]] == x;
        assert z[..|z| - 1] + [z[|z| - 1]] == z;
        CostExtend(r', op);
        r := r' + [op];
      }
    }
  }

  /** The distance obeys the triangle inequality. */
  lemma EditDistanceTriangle(a: string, b: string, c: string)
    ensures EditDistance(a, c) <= EditDistance(a, b) + EditDistance(b, c)
  {
    CheapestOptimal(a, b);
    CheapestOptimal(b, c);
    CheapestOptimal(a, c);
    var r := Compose(Cheapest(a, b), a, b, Cheapest(b, c), c);
  }

  // ---- The rows the source computes ----------------------------------------------

  /** A script value the source can build: its words have room for its operations, so
      Distance::next may be applied to it. */
  type Script = d: Distance | HasRoom(d) witness Distance(0, [], 0)

  /** Cell j of the first row: Distance::new extended by `j` Inserts. */
  ghost function InsertScript(j: nat): Script {
    if j == 0 then New() else Next(InsertScript(j - 1), Insert)
  }

  /** Cell j of the row that follows `prev` for the character `ca` of `a`, built with
      Distance::next and std::cmp::min as the inner loop builds it. */
  ghost function RowScript(prev: seq<Script>, ca: char, b: string, j: nat): Script
    requires |prev| == |b| + 1 && j <= |b|
  {
    if j == 0 then Next(prev[0], Delete)
    else
      MinDistance(MinDistance(
        Next(RowScript(prev, ca, b, j - 1), Insert),
        Next(prev[j], Delete)),
        Next(prev[j - 1], if ca == b[j - 1] then Keep else Subst))
  }

  /** The first row, for `n` characters of `b`. */
  ghost function TopScripts(n: nat): (row: seq<Script>)
    ensures |row| == n + 1
  {
    seq(n + 1, j requires 0 <= j => InsertScript(j))
  }

  /** The row that follows `prev` for the character `ca` of `a`. */
  ghost function NextScripts(prev: seq<Script>, ca: char, b: string): (row: seq<Script>)
    requires |prev| == |b| + 1
    ensures |row| == |b| + 1
  {
    seq(|b| + 1, j requires 0 <= j <= |b| => RowScript(prev, ca, b, j))
  }

  /** The row `lev` holds after the first `i` characters of `a`. */
  ghost function ScriptRows(a: string, b: string, i: nat): (row: seq<Script>)
    requires i <= |a|
    ensures |row| == |b| + 1
  {
    if i == 0 then TopScripts(|b|) else NextScripts(ScriptRows(a, b, i - 1), a[i - 1], b)
  }

  // ---- From operation lists to packed scripts ------------------------------------

  /** The scripts that encode a row of operation lists. */
  ghost function Scripts(row: seq<seq<Operation>>): (lev: seq<Script>)
    ensures |lev| == |row|
  {
    seq(|row|, k requires 0 <= k < |row| => Encode(row[k]))
  }

  /** Cell k of the scripts of a row. */
  lemma ScriptsAt(row: seq<seq<Operation>>, k: nat)
    requires k < |row|
    ensures Scripts(row)[k] == Encode(row[k])
  {
  }

  /** `std::cmp::min` on two encoded scripts encodes the cheaper operation list. */
  lemma MinEncode(x: seq<Operation>, y: seq<Operation>)
    ensures MinDistance(Encode(x), Encode(y)) == Encode(Cheaper(x, y))
  {
  }

  /** One more Insert of the first row. */
  lemma InsertScriptStep(j: nat)
    requires 0 < j && InsertScript(j - 1) == Encode(TopCell(j - 1))
    ensures InsertScript(j) == Encode(TopCell(j))
  {
    assert TopCell(j) == TopCell(j - 1) + [Insert];
    NextAppends(TopCell(j - 1), Insert);
  }

  /** Cell j of the first row encodes `j` Inserts. */
  lemma {:induction false} InsertScriptEncodes(j: nat)
    ensures InsertScript(j) == Encode(TopCell(j))
  {
    if j == 0 {
      assert TopCell(0) == [];
      assert Encode([]).words == [];
    } else {
      InsertScriptEncodes(j - 1);
      InsertScriptStep(j);
    }
  }

  /** One step of the inner loop on encoded neighbours encodes the next cell. */
  lemma CellEncodes(left: seq<Operation>, above: seq<Operation>, diagonal: seq<Operation>, ca: char, cb: char)
    ensures MinDistance(MinDistance(
        Next(Encode(left), Insert),
        Next(Encode(above), Delete)),
        Next(Encode(diagonal), if ca == cb then Keep else Subst))
      == Encode(Cheaper(Cheaper(left + [Insert], above + [Delete]), diagonal + [Diagonal(ca, cb)]))
  {
    var op := Diagonal(ca, cb);
    NextAppends(left, Insert);
    NextAppends(above, Delete);
    NextAppends(diagonal, op);
    MinEncode(left + [Insert], above + [Delete]);
    MinEncode(Cheaper(left + [Insert], above + [Delete]), diagonal + [op]);
  }

  /** The first cell of a following row encodes the operation list of that cell. */
  lemma FirstScriptEncodes(prev: seq<Script>, ops: seq<seq<Operation>>, ca: char, b: string)
    requires |ops| == |b| + 1 && prev == Scripts(ops)
    ensures RowScript(prev, ca, b, 0) == Encode(RowCell(ops, ca, b, 0))
  {
    NextAppends(ops[0], Delete);
  }

  /** A cell of a following row encodes its operation list once the cell to its left
      does. */
  lemma RowScriptStep(prev: seq<Script>, ops: seq<seq<Operation>>, ca: char, b: string, j: nat)
    requires |ops| == |b| + 1 && |prev| == |b| + 1 && 0 < j <= |b|
    requires prev[j] == Encode(ops[j]) && prev[j - 1] == Encode(ops[j - 1])
    requires RowScript(prev, ca, b, j - 1) == Encode(RowCell(ops, ca, b, j - 1))
    ensures RowScript(prev, ca, b, j) == Encode(RowCell(ops, ca, b, j))
  {
    CellEncodes(RowCell(ops, ca, b, j - 1), ops[j], ops[j - 1], ca, b[j - 1]);
  }

  /** Cell j of a following row encodes the operation list of that cell. */
  lemma {:induction false} RowScriptEncodes(prev: seq<Script>, ops: seq<seq<Operation>>, ca: char, b: string, j: nat)
    requires |ops| == |b| + 1 && j <= |b| && prev == Scripts(ops)
    ensures RowScript(prev, ca, b, j) == Encode(RowCell(ops, ca, b, j))
    decreases j
  {
    if j == 0 {
      FirstScriptEncodes(prev, ops, ca, b);
    } else {
      if j > 1 {
        RowScriptEncodes(prev, ops, ca, b, j - 1);
      } else {
        FirstScriptEncodes(prev, ops, ca, b);
      }
      ScriptsAt(ops, j);
      ScriptsAt(ops, j - 1);
      RowScriptStep(prev, ops, ca, b, j);
    }
  }

  /** The first row the source computes encodes `j` Inserts in cell `j`. */
  lemma TopScriptsEncode(n: nat)
    ensures TopScripts(n) == Scripts(TopCells(n))
  {
    forall j | 0 <= j <= n
      ensures TopScripts(n)[j] == Scripts(TopCells(n))[j]
    {
      InsertScriptEncodes(j);
      ScriptsAt(TopCells(n), j);
    }
  }

  /** A following row the source computes encodes the following row of operation
      lists. */
  lemma NextScriptsEncode(prev: seq<Script>, ops: seq<seq<Operation>>, ca: char, b: string)
    requires |ops| == |b| + 1 && prev == Scripts(ops)
    ensures NextScripts(prev, ca, b) == Scripts(NextCells(ops, ca, b))
  {
    forall j | 0 <= j <= |b|
      ensures NextScripts(prev, ca, b)[j] == Scripts(NextCells(ops, ca, b))[j]
    {
      RowScriptEncodes(prev, ops, ca, b, j);
      ScriptsAt(NextCells(ops, ca, b), j);
    }
  }

  /** The rows the source computes encode the cheapest operation lists. */
  lemma {:induction false} ScriptRowsEncode(a: string, b: string, i: nat)
    requires i <= |a|
    ensures ScriptRows(a, b, i) == Scripts(Rows(a, b, i))
  {
    if i == 0 {
      TopScriptsEncode(|b|);
    } else {
      var k := i - 1;
      ScriptRowsEncode(a, b, k);
      ScriptRowsStep(a, b, k);
    }
  }

  lemma ScriptRowsStep(a: string, b: string, k: nat)
    requires k < |a| && ScriptRows(a, b, k) == Scripts(Rows(a, b, k))
    ensures ScriptRows(a, b, k + 1) == Scripts(Rows(a, b, k + 1))
  {
    NextScriptsEncode(ScriptRows(a, b, k), Rows(a, b, k), a[k], b);
  }

  // ---- The algorithm -------------------------------------------------------------

  /** The row after one more character of `a`. */
  lemma ScriptRowsNext(a: string, b: string, i: nat)
    requires i < |a|
    ensures ScriptRows(a, b, i + 1) == NextScripts(ScriptRows(a, b, i), a[i], b)
  {
  }

  /** The block that initialises `lev` in `levenshtein`: Distance::new followed by one
      Insert per character of `b`; `n` counts the characters. */
  method FirstRow(b: string) returns (lev: seq<Script>, n: nat)
    ensures lev == TopScripts(|b|) && n == |b|
  {
    lev := [New()];
    var j := 0;
    while j < |b|
      invariant j <= |b| && lev == TopScripts(j)
    {
      var next := Next(lev[j], Insert);
      lev := lev + [next];
      j := j + 1;
    }
    n := j;
  }

  /** `row` holds the new scripts before column `j` and the old ones from `j` on. */
  ghost predicate RowSoFar(lev: seq<Script>, row: seq<Script>, ca: char, b: string, j: nat)
    requires |lev| == |b| + 1 && j <= |b| + 1
  {
    |row| == |b| + 1 &&
    (forall k :: 0 <= k < j ==> row[k] == RowScript(lev, ca, b, k)) &&
    (forall k :: j <= k <= |b| ==> row[k] == lev[k])
  }

  /** The body of the outer loop of `levenshtein` for the character `ca` of `a`: the
      row is rewritten in place from left to right, `lev11` carrying the old value of
      the cell to the left, the diagonal predecessor of the next cell. */
  method RewriteRow(lev: seq<Script>, ca: char, b: string) returns (lev': seq<Script>)
    requires |lev| == |b| + 1
    ensures lev' == NextScripts(lev, ca, b)
  {
    var first := Next(lev[0], Delete);
    var lev11;
    lev', lev11 := Replace(lev, 0, first);

    var j := 1;
    while j <= |b|
      invariant 1 <= j <= |b| + 1 && RowSoFar(lev, lev', ca, b, j) && lev11 == lev[j - 1]
    {
      lev', lev11 := RewriteCell(lev, lev', lev11, ca, b, j);
      j := j + 1;
    }
    ghost var row := NextScripts(lev, ca, b);
    assert forall k :: 0 <= k <= |b| ==> lev'[k] == row[k];
  }

  /** One cell of the inner loop: the cheapest of inserting after the cell to the left,
      deleting after the cell above and keeping or substituting after the diagonal. */
  method RewriteCell(lev: seq<Script>, row: seq<Script>, lev11: Script, ca: char, b: string, j: nat)
    returns (row': seq<Script>, lev11': Script)
    requires |lev| == |b| + 1 && 1 <= j <= |b|
    requires RowSoFar(lev, row, ca, b, j) && lev11 == lev[j - 1]
    ensures RowSoFar(lev, row', ca, b, j + 1) && lev11' == lev[j]
  {
    var cb := b[j - 1];
    var insert := Next(row[j - 1], Insert);
    var delete := Next(row[j], Delete);
    var subst := Next(lev11, if ca == cb then Keep else Subst);
    var cell: Script := MinDistance(MinDistance(insert, delete), subst);
    assert cell == RowScript(lev, ca, b, j);
    row', lev11' := Replace(row, j, cell);
  }

  /** The last cell of the last row the source computes encodes the cheapest script. */
  lemma LastCellEncodes(a: string, b: string)
    ensures ScriptRows(a, b, |a|)[|b|] == Encode(Cheapest(a, b))
  {
    ScriptRowsEncode(a, b, |a|);
    ScriptsAt(Rows(a, b, |a|), |b|);
  }

  /** The encoding of the cheapest script is well-formed, replays `a` into `b`, costs
      the edit distance and no more than any other replay; empty against empty it is
      the empty script. */
  lemma EncodedCheapest(a: string, b: string)
    ensures Valid(Encode(Cheapest(a, b))) && Operations(Encode(Cheapest(a, b))) == Cheapest(a, b)
    ensures Aligns(Cheapest(a, b), a, b) && Encode(Cheapest(a, b)).distance == EditDistance(a, b)
    ensures forall ops :: Aligns(ops, a, b) ==> EditDistance(a, b) <= Cost(ops)
    ensures a == [] && b == [] ==> Encode(Cheapest(a, b)).len == 0 && EditDistance(a, b) == 0
  {
    DecodeEncode(Cheapest(a, b));
    CheapestOptimal(a, b);
    if a == [] && b == [] {
      EditDistanceBounds(a, b);
    }
  }

  /** `levenshtein(a, b)`: one row `lev` of scripts over the prefixes of `b`, rewritten
      in place for each character of `a`; the result is the last cell of the last row,
      the packed encoding of the cheapest script (see EncodedCheapest for what that
      script is). */
  method Levenshtein(a: string, b: string) returns (r: Distance)
    ensures r == Encode(Cheapest(a, b)) && r.distance == EditDistance(a, b)
  {
    var lev, n := FirstRow(b);
    assert lev == ScriptRows(a, b, 0);
    var i := 0;
    while i < |a|
      invariant i <= |a| && lev == ScriptRows(a, b, i)
    {
      ScriptRowsNext(a, b, i);
      lev := RewriteRow(lev, a[i], b);
      i := i + 1;
    }
    r := lev[n];
    LastCellEncodes(a, b);
  }
}
