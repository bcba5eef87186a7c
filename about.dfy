/** The `/about` reply of src/main.rs (make_about_text): who may use the bot, the
    default cafeterias, the switch-over time and the text patterns. */
module About {
  import opened Wrappers
  import opened Strings
  import opened Unicode
  import opened Telegram
  import opened Conf
  import opened TextFormat

  const ABOUT_HEAD: string :=
    "<b>Copyright 2017-2018 Schnusch</b>\nhttps://www.github.com/schnusch/mensabot/\n\naccess: "

  /** The access mode, from which of the two lists are empty. */
  function AccessLabel(allowEmpty: bool, denyEmpty: bool): string
  {
    if allowEmpty && denyEmpty then "public"
    else if allowEmpty then "blacklist"
    else if denyEmpty then "whitelist"
    else "whitelist, blacklist"
  }

  /** The label says how a message from anyone in any chat is decided. */
  lemma AccessLabelMeaning(conf: Config, msg: Message)
    ensures var mode := AccessLabel(conf.allow.IsEmpty(), conf.deny.IsEmpty());
      var allowed := conf.IsAllowed(msg);
      (mode == "public" ==> allowed) &&
      (mode == "blacklist" ==>
        (allowed <==> !conf.deny.ContainsUser(msg.from) && msg.chat.id !in conf.deny.chatids)) &&
      (mode == "whitelist" ==>
        (allowed <==> conf.allow.ContainsUser(msg.from) || msg.chat.id in conf.allow.chatids)) &&
      (mode == "whitelist, blacklist" ==>
        (allowed <==> conf.allow.ContainsUser(msg.from) ||
                      (!conf.deny.ContainsUser(msg.from) && msg.chat.id in conf.allow.chatids)))
  {
  }

  /** A name as inline code. */
  function Code(m: string): string
  {
    "<code>" + EscapeHtml(m) + "</code>"
  }

  function Codes(ms: seq<string>): (cs: seq<string>)
    ensures |cs| == |ms| && forall k :: 0 <= k < |ms| ==> cs[k] == Code(ms[k])
  {
    if ms == [] then [] else Codes(ms[..|ms| - 1]) + [Code(ms[|ms| - 1])]
  }

  /** One indented line of inline code per pattern. */
  function PatternLines(ps: seq<string>): string
  {
    if ps == [] then [] else PatternLines(ps[..|ps| - 1]) + "\n <code>" + EscapeHtml(ps[|ps| - 1]) + "</code>"
  }

  /** The text of the reply: the access mode, the default cafeterias separated by commas,
      the switch-over time, and the patterns if there are any. */
  function AboutText(allowEmpty: bool, denyEmpty: bool, g: ConfigGeneral): string
  {
    ABOUT_HEAD + AccessLabel(allowEmpty, denyEmpty) + "\ndefault: " + Join(Codes(g.mensas), ", ") +
    "\ntomorrow: <code>" + g.tomorrow + "</code>" +
    (if g.patterns == [] then "" else "\npatterns:" + PatternLines(g.patterns))
  }

  /** Every name as inline code followed by `, `. */
  function Listed(ms: seq<string>): string
  {
    if ms == [] then [] else Listed(ms[..|ms| - 1]) + Code(ms[|ms| - 1]) + ", "
  }

  lemma {:induction false} ListedJoin(ms: seq<string>)
    requires ms != []
    ensures Listed(ms) == Join(Codes(ms), ", ") + ", "
    decreases |ms|
  {
    var front, last := ms[..|ms| - 1], ms[|ms| - 1];
    assert Codes(ms) == Codes(front) + [Code(last)];
    assert Listed(ms) == Listed(front) + Code(last) + ", ";
    if front == [] {
      assert Codes(ms) == [Code(last)];
    } else {
      ListedJoin(front);
      JoinAppend(Codes(front), Code(last), ", ");
    }
  }

  /** The loop over the default cafeterias, each followed by `, `. */
  method PushNames(txt0: string, ms: seq<string>) returns (txt: string)
    ensures txt == txt0 + Listed(ms)
  {
    txt := txt0;
    var k := 0;
    while k < |ms|
      invariant k <= |ms| && txt == txt0 + Listed(ms[..k])
    {
      ghost var before := txt;
      txt := txt + "<code>";
      txt := txt + EscapeHtml(ms[k]);
      txt := txt + "</code>, ";
      ListedStep(txt0, before, ms, k);
      k := k + 1;
    }
    assert ms[..k] == ms;
  }

  lemma ListedStep(txt0: string, before: string, ms: seq<string>, k: nat)
    requires k < |ms| && before == txt0 + Listed(ms[..k])
    ensures before + "<code>" + EscapeHtml(ms[k]) + "</code>, " == txt0 + Listed(ms[..k + 1])
  {
    assert ms[..k + 1][..k] == ms[..k];
    var l, c := Listed(ms[..k]), Code(ms[k]);
    assert Listed(ms[..k + 1]) == l + c + ", ";
    assert before + "<code>" + EscapeHtml(ms[k]) + "</code>, " == txt0 + (l + c + ", ");
  }

  /** The default cafeterias, and the cut of the last `, ` (two bytes) when there was one. */
  method PushDefaults(txt0: string, ms: seq<string>) returns (txt: string)
    ensures txt == txt0 + Join(Codes(ms), ", ")
  {
    txt := PushNames(txt0, ms);
    if ms != [] {
      ListedJoin(ms);
      ghost var kept := txt0 + Join(Codes(ms), ", ");
      assert txt == kept + ", ";
      DropAsciiTail(kept, ", ");
      var n := Utf8Len(txt);
      txt := SliceTo(txt, n - 2).value;
    }
  }

  /** The loop over the patterns. */
  method PushPatterns(txt0: string, ps: seq<string>) returns (txt: string)
    ensures txt == txt0 + PatternLines(ps)
  {
    txt := txt0;
    var j := 0;
    while j < |ps|
      invariant j <= |ps| && txt == txt0 + PatternLines(ps[..j])
    {
      ghost var before := txt;
      txt := txt + "\n <code>";
      txt := txt + EscapeHtml(ps[j]);
      txt := txt + "</code>";
      PatternStep(txt0, before, ps, j);
      j := j + 1;
    }
    assert ps[..j] == ps;
  }

  lemma PatternStep(txt0: string, before: string, ps: seq<string>, j: nat)
    requires j < |ps| && before == txt0 + PatternLines(ps[..j])
    ensures before + "\n <code>" + EscapeHtml(ps[j]) + "</code>" == txt0 + PatternLines(ps[..j + 1])
  {
    assert ps[..j + 1][..j] == ps[..j];
    var l, e := PatternLines(ps[..j]), EscapeHtml(ps[j]);
    assert PatternLines(ps[..j + 1]) == l + "\n <code>" + e + "</code>";
  }

  /** make_about_text: the text built piece by piece, sent silently as HTML. */
  method MakeAboutText(msg: Message, conf: Config) returns (re: OutgoingText)
    ensures re == ReplyText(msg, AboutText(conf.allow.IsEmpty(), conf.deny.IsEmpty(), conf.general))
                    .(disableNotification := true, parseMode := Some("html"))
  {
    var g := conf.general;
    var txt := ABOUT_HEAD;
    txt := txt + AccessLabel(conf.allow.IsEmpty(), conf.deny.IsEmpty());
    txt := txt + "\ndefault: ";
    txt := PushDefaults(txt, g.mensas);
    txt := txt + "\ntomorrow: <code>";
    txt := txt + g.tomorrow;
    txt := txt + "</code>";
    ghost var fixed := txt;
    if g.patterns != [] {
      txt := txt + "\npatterns:";
      txt := PushPatterns(txt, g.patterns);
    }
    assert txt == fixed + (if g.patterns == [] then "" else "\npatterns:" + PatternLines(g.patterns));
    assert txt == AboutText(conf.allow.IsEmpty(), conf.deny.IsEmpty(), g);
    re := ReplyText(msg, txt);
    re := re.(disableNotification := true);
    re := re.(parseMode := Some("html"));
  }
}
