/** The edit script `Distance` of src/levenshtein.rs: a persistent sequence of edit
    operations packed two bits each, 32 to a u64 word, together with its cost (the
    number of operations that are not Keep) and its length. */
module EditScript {
  import opened Wrappers
  import opened Bits

  /** One edit step turning `a` into `b`: Keep copies a character, Subst replaces one,
      Insert emits a character of `b`, Delete drops a character of `a`. */
  datatype Operation = Keep | Subst | Insert | Delete

  /** The 2-bit codes of the source (note Delete = 2 and Insert = 3). */
  const KEEP: nat := 0
  const SUBST: nat := 1
  const DEL: nat := 2
  const INS: nat := 3

  function OpCode(op: Operation): (c: nat)
    ensures c < 4
  {
    match op
    case Keep => KEEP
    case Subst => SUBST
    case Insert => INS
    case Delete => DEL
  }

  /** Decodes two bits. Every caller masks its argument with 3 first, so the source's
      `unreachable!()` arm is never taken. */
  function BitsToOperation(x: nat): (op: Operation)
    requires x < 4
    ensures OpCode(op) == x
  {
    if x == KEEP then Keep
    else if x == SUBST then Subst
    else if x == INS then Insert
    else Delete
  }

  lemma OpCodeInjective(op: Operation, op': Operation)
    ensures OpCode(op) == OpCode(op') <==> op == op'
  {
  }

  /** The number of operations in `ops` that are not Keep. */
  function Cost(ops: seq<Operation>): (c: nat)
    ensures c <= |ops|
  {
    if ops == [] then 0
    else Cost(ops[..|ops| - 1]) + (if ops[|ops| - 1].Keep? then 0 else 1)
  }

  lemma {:induction false} CostAppend(ops: seq<Operation>, more: seq<Operation>)
    ensures Cost(ops + more) == Cost(ops) + Cost(more)
    decreases |more|
  {
    if more == [] {
      assert ops + more == ops;
    } else {
      var n := |more| - 1;
      assert (ops + more)[..|ops + more| - 1] == ops + more[..n];
      CostAppend(ops, more[..n]);
    }
  }

  lemma CostSingle(op: Operation)
    ensures Cost([op]) == if op.Keep? then 0 else 1
  {
    assert [op][..0] == [];
  }

  /** The packed script: `distance` is its cost, `len` the number of operations and
      `words` the operations, operation k in bits 2*(k%32) of word k/32. */
  datatype Distance = Distance(distance: nat, words: seq<nat>, len: nat)

  /** The words hold at least ceil(len/32) entries, so every operation can be read. */
  predicate HasRoom(d: Distance) {
    (d.len + 31) / 32 <= |d.words|
  }

  // ---- Reference packing -------------------------------------------------------

  /** The word that holds `chunk`, read as the digits of a base-4 number, first
      operation least significant. */
  function PackWord(chunk: seq<Operation>): (w: nat)
    ensures w < Pow2(2 * |chunk|)
  {
    if chunk == [] then 0 else OpCode(chunk[0]) + 4 * PackWord(chunk[1..])
  }

  /** The words of `ops`: word i packs operations 32*i up to 32*i+31. */
  function Pack(ops: seq<Operation>): (words: seq<nat>)
    ensures |words| == (|ops| + 31) / 32
  {
    seq((|ops| + 31) / 32, i requires 0 <= i < (|ops| + 31) / 32 =>
      PackWord(ops[32 * i .. Min(32 * i + 32, |ops|)]))
  }

  /** The script that records exactly `ops`. */
  function Encode(ops: seq<Operation>): (d: Distance)
    ensures d.len == |ops| && d.distance == Cost(ops) && HasRoom(d)
  {
    Distance(Cost(ops), Pack(ops), |ops|)
  }

  // ---- Decoding ------------------------------------------------------------------

  /** Operation k read back from the words, `(words[k/32] >> (k%32*2)) & 3`, as
      `get_last_operation` and the iterator do. */
  function OperationAt(words: seq<nat>, k: nat): Operation
    requires k / 32 < |words|
  {
    BitsToOperation(And(Shr(words[k / 32], k % 32 * 2), 3))
  }

  /** The operations a script yields, in the order they were appended. */
  function Operations(d: Distance): (ops: seq<Operation>)
    requires HasRoom(d)
    ensures |ops| == d.len
  {
    seq(d.len, k requires 0 <= k < d.len => OperationAt(d.words, k))
  }

  /** A well-formed script: it is the encoding of the operations it yields. */
  predicate Valid(d: Distance): (r: bool)
    ensures r ==> HasRoom(d) && d.distance == Cost(Operations(d)) && d.distance <= d.len
  {
    HasRoom(d) && d == Encode(Operations(d))
  }

  // ---- Operations of the source --------------------------------------------------

  /** Distance::new: the empty script. */
  function New(): (d: Distance)
    ensures Valid(d) && Operations(d) == []
  {
    assert Encode([]).words == [];
    Distance(0, [], 0)
  }

  /** Distance::next: a copy of `d` extended by `op`. */
  function Next(d: Distance, op: Operation): (r: Distance)
    requires HasRoom(d)
    ensures HasRoom(r) && r.len == d.len + 1
    ensures r.distance == d.distance + if op.Keep? then 0 else 1
  {
    RoomAfterNext(d.len, |d.words|);
    var opcode := OpCode(op);
    var newwords :=
      if d.len % 32 == 0 then d.words + [opcode]
      else
        var n := |d.words|;
        d.words[n - 1 := Or(d.words[n - 1], Shl(opcode, d.len % 32 * 2))];
    Distance(d.distance + (if op.Keep? then 0 else 1), newwords, d.len + 1)
  }

  /** A new word is needed exactly when the last one is full. */
  lemma RoomAfterNext(len: nat, m: nat)
    requires (len + 31) / 32 <= m
    ensures len % 32 == 0 ==> (len + 32) / 32 <= m + 1
    ensures len % 32 != 0 ==> 1 <= m && (len + 32) / 32 <= m
  {
    var q, r := len / 32, len % 32;
    assert len == 32 * q + r;
    assert (len + 32) / 32 == q + 1;
    if r != 0 {
      assert (len + 31) / 32 == q + 1;
    }
  }

  /** Distance::get_last_operation. `None` stands for the panic
      "levenshtein distance empty" on a script without operations. */
  function GetLastOperation(d: Distance): (r: Option<Operation>)
    requires HasRoom(d)
    ensures r.None? <==> d.len == 0
  {
    if d.len == 0 then None
    else
      var n := d.len - 1;
      var iw := n / 32;
      var ib := n % 32;
      Some(BitsToOperation(And(Shr(d.words[iw], ib * 2), 3)))
  }

  // ---- Arithmetic of the packing -------------------------------------------------

  lemma {:induction false} PackWordAppend(chunk: seq<Operation>, op: Operation)
    ensures PackWord(chunk + [op]) == PackWord(chunk) + OpCode(op) * Pow2(2 * |chunk|)
  {
    if chunk == [] {
      assert chunk + [op] == [op];
      assert [op][1..] == [];
    } else {
      var rest := chunk[1..];
      assert (chunk + [op])[1..] == rest + [op];
      assert (chunk + [op])[0] == chunk[0];
      PackWordAppend(rest, op);
      assert Pow2(2 * |chunk|) == 4 * Pow2(2 * |rest|);
      TopDigit(OpCode(chunk[0]), PackWord(rest), OpCode(op), Pow2(2 * |rest|));
    }
  }

  /** Dropping the 2*j lowest bits of a packed chunk drops its first j operations. */
  lemma {:induction false} ShrPackWord(chunk: seq<Operation>, j: nat)
    requires j <= |chunk|
    ensures PackWord(chunk) / Pow2(2 * j) == PackWord(chunk[j..])
  {
    if j == 0 {
      assert chunk[0..] == chunk;
    } else {
      var rest := chunk[1..];
      assert rest[j - 1..] == chunk[j..];
      ShrPackWord(rest, j - 1);
      assert Pow2(2 * j) == 4 * Pow2(2 * (j - 1));
      DivDropDigit(OpCode(chunk[0]), PackWord(rest), Pow2(2 * (j - 1)));
    }
  }

  /** Bits 2*j and 2*j+1 of a packed chunk hold operation j. */
  lemma PackWordAt(chunk: seq<Operation>, j: nat)
    requires j < |chunk|
    ensures And(PackWord(chunk) / Pow2(2 * j), 3) == OpCode(chunk[j])
  {
    ShrPackWord(chunk, j);
    var rest := chunk[j..];
    AndThree(PackWord(rest));
    DivUnique(PackWord(rest), 4, PackWord(rest[1..]), OpCode(rest[0]));
  }

  /** The source's `|=` of an opcode into the first free slot of a word adds it. */
  lemma OrIntoFreeSlot(chunk: seq<Operation>, op: Operation)
    requires 0 < |chunk| < 32
    ensures Or(PackWord(chunk), Shl(OpCode(op), |chunk| * 2)) == PackWord(chunk + [op])
  {
    var k := |chunk| * 2;
    assert k == 2 * |chunk|;
    ShlSmall(OpCode(op), k);
    OrDisjoint(PackWord(chunk), OpCode(op) * Pow2(k), k);
    PackWordAppend(chunk, op);
  }

  // ---- Packing properties --------------------------------------------------------

  /** Operation k of `ops` sits in word k/32 at bits 2*(k%32). */
  lemma DecodeAt(ops: seq<Operation>, k: nat)
    requires k < |ops|
    ensures k / 32 < |Pack(ops)| && OperationAt(Pack(ops), k) == ops[k]
  {
    var i := k / 32;
    var hi := Min(32 * i + 32, |ops|);
    assert 32 * i <= k < hi;
    var chunk := ops[32 * i .. hi];
    assert Pack(ops)[i] == PackWord(chunk);
    assert chunk[k % 32] == ops[k];
    PackWordAt(chunk, k % 32);
    OpCodeInjective(OperationAt(Pack(ops), k), ops[k]);
  }

  /** Reading the packed words back yields exactly the operations that were encoded,
      so every encoding is well formed. */
  lemma DecodeEncode(ops: seq<Operation>)
    ensures Operations(Encode(ops)) == ops
    ensures Valid(Encode(ops))
  {
    var d := Encode(ops);
    forall k | 0 <= k < |ops|
      ensures Operations(d)[k] == ops[k]
    {
      DecodeAt(ops, k);
    }
    assert Operations(d) == ops;
  }

  /** Every packed word is a u64. */
  lemma PackedWords(ops: seq<Operation>)
    ensures forall w :: w in Pack(ops) ==> IsWord(w)
  {
    forall w | w in Pack(ops)
      ensures IsWord(w)
    {
      var i :| 0 <= i < |Pack(ops)| && Pack(ops)[i] == w;
      var chunk := ops[32 * i .. Min(32 * i + 32, |ops|)];
      assert w == PackWord(chunk) && |chunk| <= 32;
      Pow2Monotone(2 * |chunk|, 64);
      Pow2Word();
    }
  }

  /** Words filled before an append are not touched by it. */
  lemma PackFullWords(ops: seq<Operation>, op: Operation, i: nat)
    requires 32 * i + 32 <= |ops|
    ensures i < |Pack(ops)| && i < |Pack(ops + [op])| && Pack(ops + [op])[i] == Pack(ops)[i]
  {
    var ops' := ops + [op];
    assert ops'[32 * i .. 32 * i + 32] == ops[32 * i .. 32 * i + 32];
  }

  /** At a word boundary the append starts a fresh word holding `op` alone. */
  lemma NextFreshWord(ops: seq<Operation>, op: Operation)
    requires |ops| % 32 == 0
    ensures Next(Encode(ops), op).words[|ops| / 32] == Pack(ops + [op])[|ops| / 32]
  {
    var n := |ops|;
    assert (ops + [op])[n .. Min(n + 32, n + 1)] == [op];
    assert PackWord([op]) == OpCode(op) by {
      assert [op][1..] == [];
    }
  }

  /** Inside a word the append ors `op` into the first free slot of the last word. */
  lemma NextFillWord(ops: seq<Operation>, op: Operation)
    requires |ops| % 32 != 0
    ensures Next(Encode(ops), op).words[|ops| / 32] == Pack(ops + [op])[|ops| / 32]
  {
    var n := |ops|;
    PartialWord(n);
    var chunk := ops[32 * (n / 32) .. n];
    NextLastWord(ops, op);
    PackLastWord(ops, op);
    OrIntoFreeSlot(chunk, op);
  }

  /** The append ors the opcode into the last word of the encoding. */
  lemma NextLastWord(ops: seq<Operation>, op: Operation)
    requires |ops| % 32 != 0
    ensures var n, last := |ops|, |ops| / 32;
      32 * last < n && 0 < n - 32 * last < 32 &&
      Next(Encode(ops), op).words[last] ==
        Or(PackWord(ops[32 * last .. n]), Shl(OpCode(op), (n - 32 * last) * 2))
  {
    var n, last := |ops|, |ops| / 32;
    PartialWord(n);
    var d := Encode(ops);
    assert |d.words| == last + 1 && d.len == n;
    assert d.words[last] == PackWord(ops[32 * last .. n]);
  }

  /** After the append the last word packs the old partial chunk and the new operation. */
  lemma PackLastWord(ops: seq<Operation>, op: Operation)
    requires |ops| % 32 != 0
    ensures var n, last := |ops|, |ops| / 32;
      32 * last < n && Pack(ops + [op])[last] == PackWord(ops[32 * last .. n] + [op])
  {
    var n, last := |ops|, |ops| / 32;
    PartialWord(n);
    assert (ops + [op])[32 * last .. n + 1] == ops[32 * last .. n] + [op];
  }

  /** A length that is not a multiple of 32 ends inside word n/32, the last one. */
  lemma PartialWord(n: nat)
    requires n % 32 != 0
    ensures (n + 31) / 32 == n / 32 + 1 && 32 * (n / 32) < n && Min(32 * (n / 32) + 32, n + 1) == n + 1
    ensures n - 32 * (n / 32) == n % 32
  {
    assert n == 32 * (n / 32) + n % 32;
  }

  lemma NextWords(ops: seq<Operation>, op: Operation)
    ensures Next(Encode(ops), op).words == Pack(ops + [op])
  {
    var w := Next(Encode(ops), op).words;
    var last := |ops| / 32;
    assert |w| == last + 1;
    forall i | 0 <= i < last
      ensures w[i] == Pack(ops + [op])[i]
    {
      PackFullWords(ops, op, i);
    }
    if |ops| % 32 == 0 {
      NextFreshWord(ops, op);
    } else {
      NextFillWord(ops, op);
    }
  }

  /** Appending to the packed script is appending to the operation sequence. */
  lemma NextAppends(ops: seq<Operation>, op: Operation)
    ensures Next(Encode(ops), op) == Encode(ops + [op])
  {
    CostAppend(ops, [op]);
    CostSingle(op);
    NextWords(ops, op);
  }

  /** Distance::next on a well-formed script: the length grows by one, the cost grows
      by one exactly when `op` is not Keep, the earlier operations are unchanged and
      `op` comes last. */
  lemma NextValid(d: Distance, op: Operation)
    requires Valid(d)
    ensures Valid(Next(d, op))
    ensures Operations(Next(d, op)) == Operations(d) + [op]
    ensures Next(d, op).len == d.len + 1
    ensures Next(d, op).distance == d.distance + (if op == Keep then 0 else 1)
  {
    NextAppends(Operations(d), op);
    DecodeEncode(Operations(d) + [op]);
    CostAppend(Operations(d), [op]);
    CostSingle(op);
  }

  /** In a well-formed script the cost is the number of non-Keep operations, the
      words are exactly ceil(len/32) and each of them is a u64. */
  lemma ValidShape(d: Distance)
    requires Valid(d)
    ensures d.distance == Cost(Operations(d))
    ensures |d.words| == (d.len + 31) / 32
    ensures forall w :: w in d.words ==> IsWord(w)
  {
    PackedWords(Operations(d));
  }

  /** get_last_operation returns the operation appended last. */
  lemma LastOfNext(d: Distance, op: Operation)
    requires Valid(d)
    ensures GetLastOperation(Next(d, op)) == Some(op)
  {
    var r := Next(d, op);
    NextValid(d, op);
    LastOperation(r);
    var ops := Operations(d) + [op];
    assert ops[|ops| - 1] == op;
  }

  /** get_last_operation reads the last of the operations a script yields. */
  lemma LastOperation(d: Distance)
    requires Valid(d) && d.len > 0
    ensures GetLastOperation(d) == Some(Operations(d)[d.len - 1])
  {
  }

  // ---- Ordering and equality -----------------------------------------------------

  /** Ord::cmp for Distance: by cost alone. */
  function Cmp(x: Distance, y: Distance): (o: Ordering)
    ensures o == Less <==> x.distance < y.distance
    ensures o == Equal <==> x.distance == y.distance
    ensures o == Greater <==> x.distance > y.distance
  {
    CompareInt(x.distance, y.distance)
  }

  /** PartialEq::eq for Distance: cost, length and words all agree. */
  predicate Eq(x: Distance, y: Distance): (r: bool)
    ensures r <==> x == y
  {
    x.distance == y.distance && x.len == y.len && x.words == y.words
  }

  /** On well-formed scripts equality is equality of the recorded operations. */
  lemma EqIffSameOperations(x: Distance, y: Distance)
    requires Valid(x) && Valid(y)
    ensures Eq(x, y) <==> Operations(x) == Operations(y)
  {
  }

  /** cmp and eq disagree: one substitution and one insertion compare Equal, yet the
      two scripts are not equal. */
  lemma CmpEqualButNotEq()
    ensures Cmp(Encode([Subst]), Encode([Insert])) == Equal
    ensures !Eq(Encode([Subst]), Encode([Insert]))
  {
    CostSingle(Subst);
    CostSingle(Insert);
    DecodeEncode([Subst]);
    DecodeEncode([Insert]);
    assert Operations(Encode([Subst]))[0] != Operations(Encode([Insert]))[0];
  }

  /** std::cmp::min on scripts: the first argument unless the second costs strictly
      less. */
  function MinDistance(x: Distance, y: Distance): (m: Distance)
    ensures m == x || m == y
    ensures m.distance <= x.distance && m.distance <= y.distance
    ensures m == y ==> x == y || y.distance < x.distance
  {
    match Cmp(x, y)
    case Less => x
    case Equal => x
    case Greater => y
  }

  // ---- Iteration and the Debug format --------------------------------------------

  /** Distance::iter: a cursor over the operations of `lev`. */
  class OpIterator {
    const lev: Distance
    var i: nat

    constructor (d: Distance)
      ensures lev == d && i == 0
    {
      lev := d;
      i := 0;
    }

    /** Iterator::next: the operation under the cursor, then the cursor moves on. */
    method Next() returns (r: Option<Operation>)
      requires HasRoom(lev)
      modifies this
      ensures old(i) >= lev.len ==> r == None && i == old(i)
      ensures old(i) < lev.len ==> r == Some(Operations(lev)[old(i)]) && i == old(i) + 1
    {
      if i >= lev.len {
        return None;
      }
      var iw := i / 32;
      var ib := i % 32;
      i := i + 1;
      r := Some(BitsToOperation(And(Shr(lev.words[iw], ib * 2), 3)));
    }
  }

  function Symbol(op: Operation): (c: char)
    ensures c in "=!+-"
  {
    match op
    case Keep => '='
    case Subst => '!'
    case Insert => '+'
    case Delete => '-'
  }

  /** The Debug text of a script: one symbol per operation, in order. */
  function Symbols(ops: seq<Operation>): (s: string)
    ensures |s| == |ops|
    ensures forall k :: 0 <= k < |ops| ==> s[k] == Symbol(ops[k])
  {
    if ops == [] then "" else Symbols(ops[..|ops| - 1]) + [Symbol(ops[|ops| - 1])]
  }

  /** The symbols determine the script they were printed from. */
  lemma SymbolsInjective(ops: seq<Operation>, ops': seq<Operation>)
    requires Symbols(ops) == Symbols(ops')
    ensures ops == ops'
  {
    forall k | 0 <= k < |ops|
      ensures ops[k] == ops'[k]
    {
      assert Symbols(ops)[k] == Symbols(ops')[k];
    }
  }

  /** fmt::Debug for Distance: walks the iterator and writes one symbol per operation. */
  method Format(d: Distance) returns (s: string)
    requires HasRoom(d)
    ensures s == Symbols(Operations(d))
  {
    var it := new OpIterator(d);
    s := "";
    while true
      invariant it.lev == d && it.i <= d.len
      invariant s == Symbols(Operations(d)[..it.i])
      decreases d.len - it.i
    {
      var a := it.Next();
      if a.None? {
        break;
      }
      assert Operations(d)[..it.i] == Operations(d)[..it.i - 1] + [a.value];
      s := s + [Symbol(a.value)];
    }
    assert Operations(d)[..it.i] == Operations(d);
  }
}
