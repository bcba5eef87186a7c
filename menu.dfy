/** The menu side of src/main.rs: how a cafeteria found on the menu page is named and
    scored, how the matches are ordered, and the reply text assembled from them. */
module Menu {
  import opened Wrappers
  import opened Strings
  import opened Unicode
  import opened WordMatch

  // ---- MensaMatch ----

  /** A cafeteria with its score against the search argument. */
  datatype MensaMatch = MensaMatch(similarity: nat, name: string)

  /** `Ord` on strings. */
  function CompareStr(a: string, b: string): (r: Ordering)
    ensures r == Equal <==> a == b
    ensures r == Less <==> LexLess(a, b)
    ensures r == Greater <==> LexLess(b, a)
  {
    LexTotal(a, b);
    LexIrreflexive(a);
    if a == b then Equal else if LexLess(a, b) then Less else Greater
  }

  /** MensaMatch::cmp: higher similarity first, equal ones by name. */
  function Cmp(x: MensaMatch, y: MensaMatch): (r: Ordering)
    ensures x.similarity > y.similarity ==> r == Less
    ensures x.similarity < y.similarity ==> r == Greater
    ensures x.similarity == y.similarity ==> r == CompareStr(x.name, y.name)
  {
    var o := CompareInt(y.similarity, x.similarity);
    match o
    case Equal => CompareStr(x.name, y.name)
    case _ => o
  }

  /** MensaMatch::eq: agrees with `cmp`. */
  function Eq(x: MensaMatch, y: MensaMatch): (r: bool)
    ensures r <==> Cmp(x, y) == Equal
    ensures r <==> x == y
  {
    x.similarity == y.similarity && x.name == y.name
  }

  lemma CmpAntisymmetric(x: MensaMatch, y: MensaMatch)
    ensures Cmp(y, x) == Cmp(x, y).Reverse()
  {
    LexTotal(x.name, y.name);
  }

  lemma CmpTransitive(x: MensaMatch, y: MensaMatch, z: MensaMatch)
    requires Cmp(x, y) == Less && Cmp(y, z) == Less
    ensures Cmp(x, z) == Less
  {
    if x.similarity == y.similarity == z.similarity {
      LexTransitive(x.name, y.name, z.name);
    }
  }

  // ---- the menu ----

  /** A BTreeMap<MensaMatch, Vec<String>> as its entries in key order. */
  type Menu = seq<(MensaMatch, seq<string>)>

  predicate Ordered(menu: Menu)
  {
    forall i, j :: 0 <= i < j < |menu| ==> Cmp(menu[i].0, menu[j].0) == Less
  }

  /** The first key of an ordered menu has the highest similarity. */
  lemma OrderedFirstBest(menu: Menu, i: nat)
    requires Ordered(menu) && i < |menu|
    ensures menu[i].0.similarity <= menu[0].0.similarity
  {
    if i > 0 {
      assert Cmp(menu[0].0, menu[i].0) == Less;
    }
  }

  // ---- parse_menu: name and score ----

  const OFFERS: string := "Angebote "

  /** The `Angebote ` strip as written: `&mensa[..9]` and `&mensa[9..]`, None where the
      slice panics (names shorter than 9 bytes, or byte 9 inside a char). */
  function StripOffersAsWritten(mensa: string): (r: Option<string>)
    ensures r.Some? ==> r.value == mensa || OFFERS + r.value == mensa
  {
    match SliceTo(mensa, 9)
    case None => None
    case Some(head) => if head == OFFERS then SliceFrom(mensa, 9) else Some(mensa)
  }

  /** The strip as intended: the prefix `Angebote ` is removed when present. */
  function StripOffers(mensa: string): (r: string)
    ensures OFFERS <= mensa ==> OFFERS + r == mensa
    ensures !(OFFERS <= mensa) ==> r == mensa
  {
    if OFFERS <= mensa then mensa[|OFFERS|..] else mensa
  }

  /** Both agree wherever the written code does not panic. */
  lemma StripOffersAgrees(mensa: string)
    requires StripOffersAsWritten(mensa).Some?
    ensures StripOffersAsWritten(mensa) == Some(StripOffers(mensa))
  {
    var k := CharsIn(mensa, 9).value;
    if mensa[..k] == OFFERS {
      assert k == 9;
    } else {
      assert !(OFFERS <= mensa) by {
        if OFFERS <= mensa {
          assert mensa[..9] == OFFERS;
          Utf8LenAscii(OFFERS);
          CharsInPrefix(mensa, 9);
        }
      }
    }
  }

  /** A name shorter than 9 bytes panics the written strip; the intended one leaves it
      alone. */
  lemma StripOffersShortName()
    ensures StripOffersAsWritten("Mensa") == None && StripOffers("Mensa") == "Mensa"
  {
    ShortPrefix("Mensa");
  }

  /** So does the default cafeteria "Zeltschlösschen", whose `ö` takes bytes 8 and 9. */
  lemma StripOffersSplitChar()
    ensures StripOffersAsWritten("Zeltschlösschen") == None
    ensures StripOffers("Zeltschlösschen") == "Zeltschlösschen"
  {
    var z := "Zeltschlösschen";
    var head := z[..8];
    assert IsAscii(head);
    Utf8LenAscii(head);
    var n := Utf8Len(head);
    assert z[8] == 'ö';
    CharsInSplit(z, 8, 1);
    assert n + 1 == 9;
  }

  lemma ShortPrefix(s: string)
    requires IsAscii(s) && |s| < 9
    ensures CharsIn(s, 9) == None
  {
    if CharsIn(s, 9).Some? {
      var k := CharsIn(s, 9).value;
      Utf8LenAscii(s[..k]);
    }
  }

  /** A byte count that ends inside char `i` is no boundary. */
  lemma {:induction false} CharsInSplit(s: string, i: nat, extra: nat)
    requires i < |s| && 0 < extra < Utf8Width(s[i])
    ensures CharsIn(s, Utf8Len(s[..i]) + extra) == None
    decreases i
  {
    if i > 0 {
      assert s[1..][..i - 1] == s[..i][1..];
      CharsInSplit(s[1..], i - 1, extra);
    }
  }

  /** The key of a cafeteria found on the page under the heading `heading`: the name is
      the heading without `Angebote `, taken with the corrected strip `StripOffers`, so a
      heading shorter than 9 bytes or one whose byte 9 falls inside a character gets a
      key here where the code as written (`StripOffersAsWritten`) panics; without an argument, only the configured
      cafeterias are kept, all alike; with one, the score is the word-wise score of the
      argument against the lowered name (`lower` stands for `str::to_lowercase`). */
  method MatchMensa(heading: string, arg: Option<string>, mensas: seq<string>, lower: string -> string)
    returns (r: Option<MensaMatch>)
    ensures arg.None? ==> r == if StripOffers(heading) in mensas then Some(MensaMatch(0, StripOffers(heading))) else None
    ensures arg.Some? ==> r == Some(MensaMatch(WordwiseScore(arg.value, lower(StripOffers(heading))), StripOffers(heading)))
  {
    var name := StripOffers(heading);
    match arg {
      case None =>
        if name in mensas {
          r := Some(MensaMatch(0, name));
        } else {
          r := None;
        }
      case Some(x) =>
        var similarity := WordwiseLevenshtein(x, lower(name));
        r := Some(MensaMatch(similarity, name));
    }
  }

  // ---- create_menu_message ----

  /** The meals, each on a line of its own after ` * `. */
  function MealLines(meals: seq<string>): string
  {
    if meals == [] then [] else MealLines(meals[..|meals| - 1]) + "\n * " + meals[|meals| - 1]
  }

  /** One cafeteria's block: its name, its meals, a blank line. */
  function Entry(mensa: MensaMatch, meals: seq<string>): string
  {
    mensa.name + MealLines(meals) + "\n\n"
  }

  /** The blocks of the entries, in order. */
  function Entries(menu: Menu): (r: string)
    ensures menu == [] ==> r == []
    ensures menu != [] ==> |r| >= 2 && r[|r| - 2..] == "\n\n"
  {
    if menu == [] then []
    else
      var e := Entry(menu[|menu| - 1].0, menu[|menu| - 1].1);
      var r := Entries(menu[..|menu| - 1]) + e;
      assert r[|r| - 2..] == e[|e| - 2..];
      r
  }

  /** The byte mark past which a block does not fit (the message limit, 4096, less the
      three bytes the ellipsis adds after the final cut). */
  const LIMIT: nat := 4093

  /** Where the message stops, looking from entry `i` on: at the end, at the first entry
      with a lower similarity than the first, or at the first block that crosses the
      mark. */
  function Stop(menu: Menu, i: nat): (k: nat)
    requires menu != [] && i <= |menu|
    ensures i <= k <= |menu|
    ensures forall j :: i <= j < k ==> menu[0].0.similarity <= menu[j].0.similarity
    ensures k > i ==> Utf8Len(Entries(menu[..k])) <= LIMIT
    decreases |menu| - i
  {
    if i == |menu| || menu[0].0.similarity > menu[i].0.similarity || Utf8Len(Entries(menu[..i + 1])) > LIMIT
    then i
    else Stop(menu, i + 1)
  }

  /** The message stops because a block crossed the mark. */
  predicate Overflow(menu: Menu)
    requires menu != []
  {
    var k := Stop(menu, 0);
    k < |menu| && menu[0].0.similarity <= menu[k].0.similarity && Utf8Len(Entries(menu[..k + 1])) > LIMIT
  }

  /** The blocks up to the stop, and `...` with a blank line in place of the block that
      crossed the mark. */
  function Collected(menu: Menu): (r: string)
    ensures menu == [] ==> r == []
    ensures menu != [] ==> |r| >= 2 && r[|r| - 2..] == "\n\n"
  {
    if menu == [] then []
    else
      var e := Entries(menu[..Stop(menu, 0)]);
      if Overflow(menu) then
        CutEllipsis(e);
        e + "...\n\n"
      else
        StopPositive(menu);
        e
  }

  /** Without the cut at the mark at least the first block is collected. */
  lemma StopPositive(menu: Menu)
    requires menu != [] && !Overflow(menu)
    ensures Stop(menu, 0) > 0
  {
  }

  /** The text create_menu_message builds: the collected blocks with the final blank line
      cut. */
  function MenuText(menu: Menu): (r: string)
    ensures menu == [] ==> r == []
    ensures r <= Collected(menu)
  {
    var s := Collected(menu);
    if s == [] then [] else s[..|s| - 2]
  }

  lemma EntriesStep(menu: Menu, i: nat)
    requires i < |menu|
    ensures Entries(menu[..i + 1]) == Entries(menu[..i]) + Entry(menu[i].0, menu[i].1)
  {
    assert menu[..i + 1][..i] == menu[..i];
  }

  /** One block pushed onto `s0`: the name, every meal after `\n * `, a blank line. */
  method PushEntry(s0: string, mensa: MensaMatch, meals: seq<string>) returns (s: string)
    ensures s == s0 + Entry(mensa, meals)
  {
    s := s0 + mensa.name;
    var j := 0;
    while j < |meals|
      invariant j <= |meals| && s == s0 + mensa.name + MealLines(meals[..j])
    {
      assert meals[..j + 1][..j] == meals[..j];
      s := s + "\n * ";
      s := s + meals[j];
      j := j + 1;
    }
    assert meals[..j] == meals;
    s := s + "\n\n";
  }

  /** Where the loop leaves off: at an entry with a lower similarity than the first. */
  lemma CollectedAtLower(menu: Menu, i: nat)
    requires 0 < i < |menu| && Stop(menu, 0) == Stop(menu, i)
    requires menu[0].0.similarity > menu[i].0.similarity
    ensures Collected(menu) == Entries(menu[..i])
  {
  }

  /** At the block that crosses the mark. */
  lemma CollectedAtOverflow(menu: Menu, i: nat)
    requires i < |menu| && Stop(menu, 0) == Stop(menu, i)
    requires i > 0 ==> menu[0].0.similarity <= menu[i].0.similarity
    requires Utf8Len(Entries(menu[..i + 1])) > LIMIT
    ensures Collected(menu) == Entries(menu[..i]) + "...\n\n"
  {
  }

  /** At the end of the menu. */
  lemma CollectedAtEnd(menu: Menu)
    requires menu != [] && Stop(menu, 0) == |menu|
    ensures Collected(menu) == Entries(menu)
  {
    assert menu[..|menu|] == menu;
  }

  const BLANK_LINE: string := "\n\n"

  lemma BlankAscii()
    ensures IsAscii(BLANK_LINE) && |BLANK_LINE| == 2
  {
    assert BLANK_LINE[0] == '\n' && BLANK_LINE[1] == '\n';
  }

  /** The cut of a final blank line: two ASCII bytes. */
  lemma CutBlankLine(kept: string)
    ensures Utf8Len(kept + "\n\n") >= 2
    ensures SliceTo(kept + "\n\n", Utf8Len(kept + "\n\n") - 2) == Some(kept)
  {
    BlankAscii();
    CutAsciiTail(kept, BLANK_LINE);
  }

  /** The cut of an ASCII tail by its length in bytes. */
  lemma CutAsciiTail(kept: string, tail: string)
    requires IsAscii(tail)
    ensures Utf8Len(kept + tail) >= |tail|
    ensures SliceTo(kept + tail, Utf8Len(kept + tail) - |tail|) == Some(kept)
  {
    DropAsciiTail(kept, tail);
  }

  /** The loop of create_menu_message: blocks pushed while the similarity stays that of the
      first and the text stays within the mark. */
  method CollectEntries(menu: Menu) returns (s: string)
    ensures s == Collected(menu)
  {
    s := "";
    var similarity: Option<nat> := None;
    var i := 0;
    while i < |menu|
      invariant i <= |menu| && s == Entries(menu[..i])
      invariant menu != [] ==> i <= Stop(menu, 0) == Stop(menu, i)
      invariant similarity == if i == 0 then None else Some(menu[0].0.similarity)
    {
      var mensa, meals := menu[i].0, menu[i].1;
      var oldlen := Utf8Len(s);
      if similarity.None? {
        similarity := Some(mensa.similarity);
      } else if similarity.value > mensa.similarity {
        CollectedAtLower(menu, i);
        return;
      }
      ghost var before := s;
      s := PushEntry(s, mensa, meals);
      EntriesStep(menu, i);
      if Utf8Len(s) > LIMIT {
        SliceToPrefix(before, Entry(mensa, meals));
        s := SliceTo(s, oldlen).value;
        s := s + "...\n\n";
        CollectedAtOverflow(menu, i);
        return;
      }
      i := i + 1;
    }
    if menu != [] {
      CollectedAtEnd(menu);
    }
  }

  /** create_menu_message: the collected text with its last two bytes, the final blank
      line, cut. */
  method CreateMenuMessage(menu: Menu) returns (s: string)
    ensures s == MenuText(menu)
  {
    s := CollectEntries(menu);
    var n := Utf8Len(s);
    if n > 0 {
      ghost var kept := s[..|s| - 2];
      assert s == kept + "\n\n";
      CutBlankLine(kept);
      s := SliceTo(s, n - 2).value;
    }
  }

  // ---- what the message promises ----

  /** The message fits Telegram's 4096-byte limit. */
  lemma MenuTextBound(menu: Menu)
    ensures Utf8Len(MenuText(menu)) <= 4096
  {
    if menu != [] {
      CollectedBound(menu);
      var c := Collected(menu);
      var kept := c[..|c| - 2];
      assert c == kept + "\n\n";
      DropAsciiTail(kept, "\n\n");
    }
  }

  /** The collected blocks stay within the mark; the ellipsis and its blank line add five
      bytes. */
  lemma CollectedBound(menu: Menu)
    requires menu != []
    ensures Utf8Len(Collected(menu)) <= LIMIT + 5
  {
    var e := Entries(menu[..Stop(menu, 0)]);
    StopFits(menu);
    if Overflow(menu) {
      assert Collected(menu) == e + "...\n\n";
      Utf8LenAppend(e, "...\n\n");
      EllipsisBytes();
    } else {
      assert Collected(menu) == e;
    }
  }

  /** The ellipsis and its blank line take five bytes. */
  lemma EllipsisBytes()
    ensures Utf8Len("...\n\n") == 5
  {
    var t := "...\n\n";
    assert forall i :: 0 <= i < |t| ==> (t[i] as int) < 0x80;
    Utf8LenAscii(t);
  }

  /** The blocks before the stop stay within the mark. */
  lemma StopFits(menu: Menu)
    requires menu != []
    ensures Utf8Len(Entries(menu[..Stop(menu, 0)])) <= LIMIT
  {
    if Stop(menu, 0) == 0 {
      assert menu[..0] == [];
    }
  }

  /** A message cut at the mark ends in `...`. */
  lemma MenuTextEllipsis(menu: Menu)
    requires menu != [] && Overflow(menu)
    ensures |MenuText(menu)| >= 3 && MenuText(menu)[|MenuText(menu)| - 3..] == "..."
  {
    var e := Entries(menu[..Stop(menu, 0)]);
    assert Collected(menu) == e + "...\n\n";
    CutEllipsis(e);
  }

  lemma CutEllipsis(e: string)
    ensures var c := e + "...\n\n"; c[..|c| - 2] == e + "..." && c[|c| - 2..] == "\n\n"
    ensures var r := e + "..."; r[|r| - 3..] == "..."
  {
  }

  /** Without the cut at the mark, at least the first block is collected, and nothing
      more than the blocks. */
  lemma CollectedWhole(menu: Menu)
    requires menu != [] && !Overflow(menu)
    ensures Stop(menu, 0) > 0 && Collected(menu) == Entries(menu[..Stop(menu, 0)])
  {
  }

  /** The blocks of the first `k` entries without their final blank line. */
  lemma EntriesCut(menu: Menu, k: nat)
    requires 0 < k <= |menu|
    ensures var c := Entries(menu[..k]);
      c[..|c| - 2] == Entries(menu[..k - 1]) + menu[k - 1].0.name + MealLines(menu[k - 1].1)
  {
    EntriesStep(menu, k - 1);
    var front, block := Entries(menu[..k - 1]), menu[k - 1].0.name + MealLines(menu[k - 1].1);
    assert Entry(menu[k - 1].0, menu[k - 1].1) == block + "\n\n";
    var c := Entries(menu[..k]);
    assert c == (front + block) + "\n\n";
    assert c[..|c| - 2] == front + block;
  }

  /** A message not cut at the mark ends with the last shown cafeteria's name and meals:
      only its blank line is dropped. */
  lemma MenuTextLastEntry(menu: Menu)
    requires menu != [] && !Overflow(menu)
    ensures var k := Stop(menu, 0);
      k > 0 && MenuText(menu) == Entries(menu[..k - 1]) + menu[k - 1].0.name + MealLines(menu[k - 1].1)
  {
    CollectedWhole(menu);
    EntriesCut(menu, Stop(menu, 0));
  }

  /** Of an ordered menu only the best-scored cafeterias are shown: every entry in the
      message has the first entry's similarity. */
  lemma MenuTopGroup(menu: Menu, j: nat)
    requires Ordered(menu) && menu != [] && j < Stop(menu, 0)
    ensures menu[j].0.similarity == menu[0].0.similarity
  {
    OrderedFirstBest(menu, j);
  }

  /** Entries in the message come from the front of the menu, up to the first one with a
      lower score. */
  lemma {:induction false} StopBeforeLower(menu: Menu, i: nat, j: nat)
    requires menu != [] && i <= j < |menu| && menu[j].0.similarity < menu[0].0.similarity
    ensures Stop(menu, i) <= j
    decreases |menu| - i
  {
    if i < j && menu[0].0.similarity <= menu[i].0.similarity && Utf8Len(Entries(menu[..i + 1])) <= LIMIT {
      StopBeforeLower(menu, i + 1, j);
    }
  }
}
