/** The handling of one message's text inside the update loop of src/main.rs: its
    `bot_command` entities read as `/mensa` or `/about` once the bot's own `@name` is
    stripped, the search argument narrowed to the text before the next entity, the text
    patterns as a fallback, and the argument cut out, trimmed and lowered. */
module Commands {
  import opened Wrappers
  import opened Strings
  import opened Unicode
  import opened Telegram

  // ---- the `@botname` suffix ----

  /** The suffix strip on byte lengths `n` and `m`: `&cmd[n-m-1..n-m] == "@"` and
      `&cmd[n-m..] == botname` give `&cmd[..n-m-1]`. None where one of those slices
      panics because its byte offset falls inside a char. */
  function StripBotName(cmd: string, botname: string): (r: Option<string>)
    ensures r.Some? ==> r.value <= cmd
    ensures Utf8Len(cmd) <= Utf8Len(botname) ==> r == Some(cmd)
  {
    var n, m := Utf8Len(cmd), Utf8Len(botname);
    if n <= m then Some(cmd)
    else match (CharsIn(cmd, n - m - 1), CharsIn(cmd, n - m))
      case (Some(a), Some(b)) =>
        CharsInOrder(cmd, n - m - 1, n - m);
        if cmd[a..b] == "@" && cmd[b..] == botname then Some(cmd[..a]) else Some(cmd)
      case _ => None
  }

  /** `cmd` ends in `@` and the bot's name. */
  predicate AddressedTo(cmd: string, botname: string)
  {
    |cmd| > |botname| && cmd[|cmd| - |botname| - 1..] == "@" + botname
  }

  /** A command addressed to the bot loses exactly that address. */
  lemma StripBotNameSuffix(p: string, botname: string)
    ensures StripBotName(p + "@" + botname, botname) == Some(p)
  {
    var cmd := p + "@" + botname;
    AddressOffsets(p, botname);
    assert cmd[|p|..|p| + 1] == "@" && cmd[|p| + 1..] == botname && cmd[..|p|] == p;
  }

  /** The two byte offsets the strip slices at fall on the boundaries around the `@`. */
  lemma AddressOffsets(p: string, botname: string)
    ensures var cmd, n, m := p + "@" + botname, Utf8Len(p + "@" + botname), Utf8Len(botname);
      n > m && CharsIn(cmd, n - m - 1) == Some(|p|) && CharsIn(cmd, n - m) == Some(|p| + 1)
  {
    var q := p + "@";
    var cmd := q + botname;
    Utf8LenAppend(q, botname);
    Utf8LenAppend(p, "@");
    assert cmd[..|p|] == p && cmd[..|q|] == q;
    CharsInPrefix(cmd, |p|);
    CharsInPrefix(cmd, |q|);
  }

  /** What the strip removes is the address. */
  lemma StripBotNameRemoves(cmd: string, botname: string)
    requires StripBotName(cmd, botname).Some? && StripBotName(cmd, botname).value != cmd
    ensures cmd == StripBotName(cmd, botname).value + "@" + botname
  {
    var n, m := Utf8Len(cmd), Utf8Len(botname);
    var a, b := CharsIn(cmd, n - m - 1).value, CharsIn(cmd, n - m).value;
    CharsInOrder(cmd, n - m - 1, n - m);
    assert cmd == cmd[..a] + cmd[a..b] + cmd[b..];
  }

  /** Where the strip does not panic, it removes the address exactly when the command
      carries it, and leaves the command alone otherwise. */
  lemma StripBotNameMeaning(cmd: string, botname: string)
    requires StripBotName(cmd, botname).Some?
    ensures StripBotName(cmd, botname) ==
      Some(if AddressedTo(cmd, botname) then cmd[..|cmd| - |botname| - 1] else cmd)
  {
    var r := StripBotName(cmd, botname).value;
    if AddressedTo(cmd, botname) {
      var p := cmd[..|cmd| - |botname| - 1];
      assert cmd == p + "@" + botname;
      StripBotNameSuffix(p, botname);
    } else if r != cmd {
      StripBotNameRemoves(cmd, botname);
    }
  }

  /** An ASCII command never panics the strip. */
  lemma StripBotNameAscii(cmd: string, botname: string)
    requires IsAscii(cmd)
    ensures StripBotName(cmd, botname).Some?
  {
    var n, m := Utf8Len(cmd), Utf8Len(botname);
    Utf8LenAscii(cmd);
    if n > m {
      CharsInAscii(cmd, n - m - 1);
      CharsInAscii(cmd, n - m);
    }
  }

  /** A non-ASCII command can: with the name `b`, the offsets of `/ä` are 1 and 2, and
      byte 2 lies inside the two bytes of `ä`. */
  lemma StripBotNamePanics()
    ensures StripBotName("/ä", "b") == None
  {
    var cmd := "/ä";
    assert cmd[..1] == "/";
    assert Utf8Len(cmd) == 3 && Utf8Len("b") == 1;
    assert Utf8Width(cmd[1]) == 2;
    assert CharsIn(cmd[1..], 1) == None;
  }

  /** The command as compared: stripped only when the bot's name is known. */
  function Resolve(cmd: string, botname: Option<string>): (r: Option<string>)
    ensures botname.None? ==> r == Some(cmd)
    ensures r.Some? ==> r.value <= cmd
  {
    match botname
    case None => Some(cmd)
    case Some(b) => StripBotName(cmd, b)
  }

  // ---- the command entities ----

  /** How the loop sees one entity: as nothing to act on (not a `bot_command`, or one
      whose units do not decode), as a strip that panics, or as the resolved command. */
  datatype Kind = Other | Panic | Cmd(name: string)

  function Classify(e: MessageEntity, text: string, botname: Option<string>): (k: Kind)
    ensures k.Cmd? ==> e.entityType == "bot_command" && Extract(e, text).Some? &&
                       Resolve(Extract(e, text).value, botname) == Some(k.name)
    ensures k.Panic? <==> e.entityType == "bot_command" && Extract(e, text).Some? &&
                          Resolve(Extract(e, text).value, botname).None?
  {
    if e.entityType != "bot_command" then Other
    else match Extract(e, text)
      case None => Other
      case Some(cmd) =>
        match Resolve(cmd, botname)
        case None => Panic
        case Some(c) => Cmd(c)
  }

  /** A `bot_command` entity reading `p@bot` counts as the command `p` for the bot `bot`,
      and one reading `c` counts as `c` while the bot's name is unknown. */
  lemma ClassifyAddressed(e: MessageEntity, text: string, p: string, bot: string)
    requires e.entityType == "bot_command"
    ensures Extract(e, text) == Some(p + "@" + bot) ==> Classify(e, text, Some(bot)) == Cmd(p)
    ensures Extract(e, text) == Some(p) ==> Classify(e, text, None) == Cmd(p)
  {
    StripBotNameSuffix(p, bot);
  }

  /** The classification of every entity of one message. */
  function Classifier(text: string, botname: Option<string>): MessageEntity -> Kind
  {
    e => Classify(e, text, botname)
  }

  /** What the entities asked for: the two command bits, and where the argument of the
      last `/mensa` starts and ends. */
  datatype Commands = Commands(mensa: bool, about: bool, argStart: nat, argEnd: nat)

  const NO_COMMANDS: Commands := Commands(false, false, 0, 0)

  /** Where the argument after a command entity starts. */
  function ArgStartOf(e: MessageEntity): nat
  {
    e.offset + e.length
  }

  /** A resolved command recorded: `/mensa` sets its bit and the argument bounds, `/about`
      its bit, anything else nothing. */
  function Record(acc: Commands, c: string, start: nat, end: nat): Commands
  {
    if c == "/mensa" then acc.(mensa := true, argStart := start, argEnd := end)
    else if c == "/about" then acc.(about := true)
    else acc
  }

  /** One entity seen, `end` being the byte length of the text: a command is recorded,
      a panicking strip ends the scan, anything else changes nothing. */
  function ScanStep(acc: Commands, e: MessageEntity, kind: MessageEntity -> Kind, end: nat): Option<Commands>
  {
    match kind(e)
    case Other => Some(acc)
    case Panic => None
    case Cmd(c) => Some(Record(acc, c, ArgStartOf(e), end))
  }

  /** All entities seen in order; None once a strip panicked. */
  function Scan(ents: seq<MessageEntity>, kind: MessageEntity -> Kind, end: nat): Option<Commands>
  {
    if ents == [] then Some(NO_COMMANDS)
    else match Scan(ents[..|ents| - 1], kind, end)
      case None => None
      case Some(acc) => ScanStep(acc, ents[|ents| - 1], kind, end)
  }

  /** Some entity is of kind `k`. */
  predicate Any(ents: seq<MessageEntity>, kind: MessageEntity -> Kind, k: Kind)
  {
    exists i :: 0 <= i < |ents| && kind(ents[i]) == k
  }

  lemma AnyStep(ents: seq<MessageEntity>, kind: MessageEntity -> Kind, k: Kind)
    requires ents != []
    ensures Any(ents, kind, k) <==> Any(ents[..|ents| - 1], kind, k) || kind(ents[|ents| - 1]) == k
  {
    var front := ents[..|ents| - 1];
    if Any(ents, kind, k) {
      var i :| 0 <= i < |ents| && kind(ents[i]) == k;
      if i < |front| {
        assert kind(front[i]) == k;
      }
    }
    if Any(front, kind, k) {
      var i :| 0 <= i < |front| && kind(front[i]) == k;
      assert kind(ents[i]) == k;
    }
  }

  /** The scan panics exactly when some command's strip does. */
  lemma {:induction false} ScanPanics(ents: seq<MessageEntity>, kind: MessageEntity -> Kind, end: nat)
    ensures Scan(ents, kind, end).None? <==> Any(ents, kind, Panic)
    decreases |ents|
  {
    if ents != [] {
      ScanPanics(ents[..|ents| - 1], kind, end);
      AnyStep(ents, kind, Panic);
    }
  }

  /** The `/mensa` bit is set exactly when some entity reads `/mensa`, and the `/about`
      bit exactly when some entity reads `/about`. */
  lemma {:induction false} ScanBits(ents: seq<MessageEntity>, kind: MessageEntity -> Kind, end: nat)
    requires Scan(ents, kind, end).Some?
    ensures Scan(ents, kind, end).value.mensa <==> Any(ents, kind, Cmd("/mensa"))
    ensures Scan(ents, kind, end).value.about <==> Any(ents, kind, Cmd("/about"))
    decreases |ents|
  {
    if ents != [] {
      ScanBits(ents[..|ents| - 1], kind, end);
      AnyStep(ents, kind, Cmd("/mensa"));
      AnyStep(ents, kind, Cmd("/about"));
    }
  }

  /** The last entity of kind `k` starts its argument at `v`. */
  predicate LastHas(ents: seq<MessageEntity>, kind: MessageEntity -> Kind, k: Kind, v: nat)
  {
    exists i :: 0 <= i < |ents| && kind(ents[i]) == k && ArgStartOf(ents[i]) == v &&
      forall j :: i < j < |ents| ==> kind(ents[j]) != k
  }

  lemma LastHasStep(front: seq<MessageEntity>, e: MessageEntity, kind: MessageEntity -> Kind, k: Kind, v: nat)
    requires (kind(e) == k && ArgStartOf(e) == v) || (kind(e) != k && LastHas(front, kind, k, v))
    ensures LastHas(front + [e], kind, k, v)
  {
    var ents := front + [e];
    if kind(e) == k && ArgStartOf(e) == v {
      assert kind(ents[|front|]) == k;
    } else {
      var i :| 0 <= i < |front| && kind(front[i]) == k && ArgStartOf(front[i]) == v &&
        forall j :: i < j < |front| ==> kind(front[j]) != k;
      assert ents[i] == front[i];
      forall j | i < j < |ents|
        ensures kind(ents[j]) != k
      {
        if j < |front| {
          assert ents[j] == front[j];
        }
      }
    }
  }

  /** The argument bounds: without `/mensa` both are 0; with it, the argument starts right
      after the last `/mensa` entity and ends at `end`, the byte length of the text. */
  predicate ArgumentBounds(c: Commands, ents: seq<MessageEntity>, kind: MessageEntity -> Kind, end: nat)
  {
    (!c.mensa ==> c.argStart == 0 && c.argEnd == 0) &&
    (c.mensa ==> c.argEnd == end && LastHas(ents, kind, Cmd("/mensa"), c.argStart))
  }

  /** The scan leaves the argument bounds described above. */
  lemma {:induction false} ScanArgument(ents: seq<MessageEntity>, kind: MessageEntity -> Kind, end: nat)
    requires Scan(ents, kind, end).Some?
    ensures ArgumentBounds(Scan(ents, kind, end).value, ents, kind, end)
    decreases |ents|
  {
    if ents != [] {
      var front, e := ents[..|ents| - 1], ents[|ents| - 1];
      ScanArgument(front, kind, end);
      assert ents == front + [e];
      var c := Scan(ents, kind, end).value;
      if c.mensa {
        LastHasStep(front, e, kind, Cmd("/mensa"), c.argStart);
      }
    }
  }

  /** The loop over the `bot_command` entities. */
  method ScanCommands(text: string, ents: seq<MessageEntity>, botname: Option<string>) returns (r: Option<Commands>)
    ensures r == Scan(ents, Classifier(text, botname), Utf8Len(text))
  {
    ghost var kind := Classifier(text, botname);
    var end := Utf8Len(text);
    var acc := NO_COMMANDS;
    var k := 0;
    while k < |ents|
      invariant k <= |ents| && Scan(ents[..k], kind, end) == Some(acc)
    {
      var next := ScanEntity(acc, ents[k], text, botname);
      ScanExtend(ents, k, kind, end);
      if next.None? {
        ScanNone(ents, k + 1, kind, end);
        return None;
      }
      acc := next.value;
      k := k + 1;
    }
    assert ents[..k] == ents;
    r := Some(acc);
  }

  /** The body of the loop for one entity: the bits and bounds it sets, or None where the
      strip of a command panics. */
  method ScanEntity(acc: Commands, e: MessageEntity, text: string, botname: Option<string>)
    returns (r: Option<Commands>)
    ensures r == ScanStep(acc, e, Classifier(text, botname), Utf8Len(text))
  {
    assert Classifier(text, botname)(e) == Classify(e, text, botname);
    r := Some(acc);
    if e.entityType == "bot_command" {
      var extracted := Extract(e, text);
      if extracted.Some? {
        var cmd := Resolve(extracted.value, botname);
        if cmd.None? {
          return None;
        }
        r := Some(Record(acc, cmd.value, e.offset + e.length, Utf8Len(text)));
      }
    }
  }

  /** The scan of one more entity. */
  lemma ScanExtend(ents: seq<MessageEntity>, k: nat, kind: MessageEntity -> Kind, end: nat)
    requires k < |ents|
    ensures Scan(ents[..k + 1], kind, end) ==
      match Scan(ents[..k], kind, end)
      case None => None
      case Some(acc) => ScanStep(acc, ents[k], kind, end)
  {
    assert ents[..k + 1][..k] == ents[..k];
  }

  /** Once the scan of a prefix panicked, so does the scan of the whole. */
  lemma {:induction false} ScanNone(ents: seq<MessageEntity>, k: nat, kind: MessageEntity -> Kind, end: nat)
    requires k <= |ents| && Scan(ents[..k], kind, end).None?
    ensures Scan(ents, kind, end).None?
    decreases |ents| - k
  {
    if k < |ents| {
      ScanExtend(ents, k, kind, end);
      ScanNone(ents, k + 1, kind, end);
    } else {
      assert ents[..k] == ents;
    }
  }

  // ---- narrowing the argument ----

  /** `end` is the least of `end0` and every entity offset in [start, end0). */
  predicate IsNarrowed(ents: seq<MessageEntity>, start: nat, end0: nat, end: nat)
  {
    end <= end0 &&
    (forall i :: 0 <= i < |ents| && start <= ents[i].offset < end0 ==> end <= ents[i].offset) &&
    (end == end0 || exists i :: 0 <= i < |ents| && start <= ents[i].offset == end)
  }

  /** That least value is unique. */
  lemma NarrowedUnique(ents: seq<MessageEntity>, start: nat, end0: nat, e1: nat, e2: nat)
    requires IsNarrowed(ents, start, end0, e1) && IsNarrowed(ents, start, end0, e2)
    ensures e1 == e2
  {
  }

  /** The narrowing loop: every entity, of any type, that starts inside the argument ends
      it there. */
  method Narrow(ents: seq<MessageEntity>, start: nat, end0: nat) returns (end: nat)
    ensures IsNarrowed(ents, start, end0, end)
  {
    end := end0;
    var k := 0;
    while k < |ents|
      invariant k <= |ents| && end <= end0
      invariant forall i :: 0 <= i < k && start <= ents[i].offset < end0 ==> end <= ents[i].offset
      invariant end == end0 || exists i :: 0 <= i < k && start <= ents[i].offset == end
    {
      if start <= ents[k].offset < end {
        end := ents[k].offset;
      }
      k := k + 1;
    }
  }

  // ---- the argument ----

  /** The argument: the UTF-16 units [start, end) of the text, trimmed, lowered (`lower`
      stands for `str::to_lowercase`); None when the range is empty, does not decode or
      holds only whitespace. */
  function Argument(text: string, start: nat, end: nat, lower: string -> string): (r: Option<string>)
    ensures end <= start ==> r.None?
    ensures start < end && Extract(MessageEntity("", start, end - start), text).None? ==> r.None?
    ensures r.Some? ==> var x := Extract(MessageEntity("", start, end - start), text).value;
      r.value == lower(Trim(x)) && exists k :: 0 <= k < |x| && !IsWhitespace(x[k])
  {
    if start < end then
      match Extract(MessageEntity("", start, end - start), text)
      case None => None
      case Some(x) => Tidy(x, lower)
    else None
  }

  /** The extracted text trimmed and lowered, when anything is left of it. */
  function Tidy(x: string, lower: string -> string): (r: Option<string>)
    ensures r.None? <==> forall k :: 0 <= k < |x| ==> IsWhitespace(x[k])
    ensures r.Some? ==> r.value == lower(Trim(x))
  {
    var t := Trim(x);
    TrimBlank(x);
    if t != [] then Some(lower(t)) else None
  }

  /** A char offset whose UTF-16 units already reach the byte length of the text is its
      end. */
  lemma UnitsReachEnd(text: string, i: nat)
    requires i <= |text| && |EncodeUtf16(text[..i])| >= Utf8Len(text)
    ensures i == |text|
  {
    Utf16NotLonger(text[..i]);
    assert text == text[..i] + text[i..];
    Utf8LenAppend(text[..i], text[i..]);
  }

  /** An argument reaching to the byte length of the text covers all the text after the
      command: its end in bytes is never before the end in UTF-16 units. */
  lemma ArgumentRest(text: string, i: nat, lower: string -> string)
    requires i <= |text|
    ensures Argument(text, |EncodeUtf16(text[..i])|, Utf8Len(text), lower) == Tidy(text[i..], lower)
  {
    var start, end := |EncodeUtf16(text[..i])|, Utf8Len(text);
    if start < end {
      ExtractRest(text, i);
    } else {
      UnitsReachEnd(text, i);
      assert text[i..] == [];
    }
  }

  /** The units from char `i` up to the byte length of the text are the chars from `i`. */
  lemma ExtractRest(text: string, i: nat)
    requires i <= |text|
    requires |EncodeUtf16(text[..i])| < Utf8Len(text)
    ensures var start := |EncodeUtf16(text[..i])|;
      Extract(MessageEntity("", start, Utf8Len(text) - start), text) == Some(text[i..])
  {
    var start := |EncodeUtf16(text[..i])|;
    var e := MessageEntity("", start, Utf8Len(text) - start);
    Utf16NotLonger(text);
    ExtractChars(e, text, i, |text|);
    assert text[i..|text|] == text[i..];
  }

  // ---- one message ----

  /** What a message asks of the bot: a menu (with its search argument) and the about
      text. */
  datatype Request = Request(menu: bool, about: bool, arg: Option<string>)

  /** The handling of one message's text; `patternMatch` tells whether one of the
      configured text patterns matches it. None where a suffix strip panics. */
  method HandleText(text: string, ents: seq<MessageEntity>, botname: Option<string>, patternMatch: bool,
                    lower: string -> string) returns (r: Option<Request>)
    ensures r.None? <==> Scan(ents, Classifier(text, botname), Utf8Len(text)).None?
    ensures r.Some? ==> var c := Scan(ents, Classifier(text, botname), Utf8Len(text)).value;
      r.value.menu == (c.mensa || patternMatch) && r.value.about == c.about &&
      (!c.mensa ==> r.value.arg.None?) &&
      (c.mensa ==> exists end :: IsNarrowed(ents, c.argStart, c.argEnd, end) &&
                                 r.value.arg == Argument(text, c.argStart, end, lower))
  {
    var scanned := ScanCommands(text, ents, botname);
    if scanned.None? {
      return None;
    }
    var c := scanned.value;
    ScanArgument(ents, Classifier(text, botname), Utf8Len(text));
    var menu, argEnd := c.mensa, c.argEnd;
    if c.mensa {
      argEnd := Narrow(ents, c.argStart, c.argEnd);
    } else if patternMatch {
      menu := true;
      argEnd := 0;
    }
    var arg := None;
    if menu {
      arg := Argument(text, c.argStart, argEnd, lower);
    }
    r := Some(Request(menu, c.about, arg));
  }
}
