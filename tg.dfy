/** The Telegram Bot API types and the pure helpers around them (src/tg.rs). The HTTP
    calls themselves are not modelled; a response arrives already deserialised. */
module Telegram {
  import opened Wrappers
  import opened Strings
  import opened Unicode
  import opened Numbers

  datatype Chat = Chat(id: int, title: Option<string>, username: Option<string>,
                       firstName: Option<string>, lastName: Option<string>)

  datatype User = User(id: int, firstName: string, lastName: Option<string>, username: Option<string>)

  datatype MessageEntity = MessageEntity(entityType: string, offset: nat, length: nat)

  datatype Message = Message(messageId: int, chat: Chat, from: Option<User>, text: Option<string>,
                             entities: seq<MessageEntity>)

  datatype OutgoingText = OutgoingText(chatId: int, text: string, disableNotification: bool,
                                       parseMode: Option<string>, replyToMessageId: Option<int>)

  /** The envelope of every Bot API answer; `J` stands for an undecoded JSON value. */
  datatype Response<J> = Response(ok: bool, errorCode: Option<int>, description: Option<string>,
                                  result: Option<J>)

  datatype Error = Error(desc: string)

  // ---- display names ----

  /** The parts `fmt_name` prints, in order: first name, quoted user name, last name. */
  function NameParts(first: Option<string>, username: Option<string>, last: Option<string>): seq<string>
  {
    (if first.Some? then [first.value] else []) +
    (if username.Some? then ["'" + username.value + "'"] else []) +
    (if last.Some? then [last.value] else [])
  }

  /** User::fmt_name: each present part is written after the pad left by the previous
      one; with no part at all, `<unknown>`. */
  function FmtName(first: Option<string>, username: Option<string>, last: Option<string>): (r: string)
    ensures first.None? && username.None? && last.None? ==> r == "<unknown>"
    ensures first.Some? ==> first.value <= r
    ensures last.Some? ==> |last.value| <= |r| && r[|r| - |last.value|..] == last.value
  {
    var (out1, pad1) := match first
      case None => ("", "")
      case Some(f) => (f, " ");
    var (out2, pad2) := match username
      case None => (out1, pad1)
      case Some(u) => (out1 + pad1 + "'" + u + "'", " ");
    match last
    case None => if |pad2| == 0 then out2 + "<unknown>" else out2
    case Some(l) => out2 + pad2 + l
  }

  /** The present parts separated by single spaces, or `<unknown>` when none is. */
  lemma FmtNameParts(first: Option<string>, username: Option<string>, last: Option<string>)
    ensures FmtName(first, username, last) ==
      if NameParts(first, username, last) == [] then "<unknown>" else Join(NameParts(first, username, last), " ")
  {
    var ps := NameParts(first, username, last);
    if first.Some? && username.Some? && last.Some? {
      FmtNameThree(first.value, username.value, last.value);
    } else if |ps| == 2 {
      assert ps[1..] == [ps[1]];
    }
  }

  lemma FmtNameThree(f: string, u: string, l: string)
    ensures FmtName(Some(f), Some(u), Some(l)) == Join(NameParts(Some(f), Some(u), Some(l)), " ")
  {
    var q := "'" + u + "'";
    var ps := [f, q, l];
    assert NameParts(Some(f), Some(u), Some(l)) == ps;
    assert ps[1..] == [q, l] && ps[1..][1..] == [l];
    assert Join(ps[1..], " ") == q + " " + l;
    assert Join(ps, " ") == f + " " + (q + " " + l);
  }

  /** Display for Chat: the title when there is one, else the name of the person. */
  function ChatDisplay(c: Chat): (s: string)
    ensures c.title.Some? ==> s == c.title.value
    ensures c.title.None? ==> s == FmtName(c.firstName, c.username, c.lastName)
  {
    match c.title
    case None => FmtName(c.firstName, c.username, c.lastName)
    case Some(t) => t
  }

  /** Display for User: the first name is always supplied, so it always leads and the
      `<unknown>` fallback is never taken. */
  function UserDisplay(u: User): (s: string)
    ensures u.firstName <= s
    ensures s == Join(NameParts(Some(u.firstName), u.username, u.lastName), " ")
  {
    FmtNameParts(Some(u.firstName), u.username, u.lastName);
    FmtName(Some(u.firstName), u.username, u.lastName)
  }

  // ---- entities ----

  function Drop(us: seq<U16>, n: nat): (r: seq<U16>)
  {
    if n >= |us| then [] else us[n..]
  }

  function Take(us: seq<U16>, n: nat): (r: seq<U16>)
  {
    if n >= |us| then us else us[..n]
  }

  /** MessageEntity::extract: the UTF-16 code units [offset, offset + length) of the text,
      clamped to its end, decoded; None where `from_utf16` fails. */
  function Extract(e: MessageEntity, text: string): (r: Option<string>)
    ensures r.Some? ==> EncodeUtf16(r.value) == Take(Drop(EncodeUtf16(text), e.offset), e.length)
  {
    DecodeUtf16(Take(Drop(EncodeUtf16(text), e.offset), e.length))
  }

  /** An entity that starts past the end of the text extracts nothing. */
  lemma ExtractPastEnd(e: MessageEntity, text: string)
    requires e.offset >= |EncodeUtf16(text)|
    ensures Extract(e, text) == Some([])
  {
  }

  /** An entity whose ends fall between chars extracts exactly those chars; a length
      reaching past the end is clamped. */
  lemma ExtractChars(e: MessageEntity, text: string, i: nat, j: nat)
    requires i <= j <= |text|
    requires e.offset == |EncodeUtf16(text[..i])|
    requires e.offset + e.length == |EncodeUtf16(text[..j])| ||
             (j == |text| && e.offset + e.length >= |EncodeUtf16(text)|)
    ensures Extract(e, text) == Some(text[i..j])
  {
    EncodeThree(text, i, j);
    TakeDropMiddle(EncodeUtf16(text[..i]), EncodeUtf16(text[i..j]), EncodeUtf16(text[j..]), e.length);
    DecodeEncodeUtf16(text[i..j]);
  }

  /** The units of a text, cut at chars `i` and `j`. */
  lemma EncodeThree(text: string, i: nat, j: nat)
    requires i <= j <= |text|
    ensures EncodeUtf16(text) == EncodeUtf16(text[..i]) + EncodeUtf16(text[i..j]) + EncodeUtf16(text[j..])
    ensures EncodeUtf16(text[..j]) == EncodeUtf16(text[..i]) + EncodeUtf16(text[i..j])
  {
    CutThree(text, i, j);
    EncodeParts(text[..i], text[i..j], text[j..]);
  }

  lemma CutThree(text: string, i: nat, j: nat)
    requires i <= j <= |text|
    ensures text[..j] == text[..i] + text[i..j]
    ensures text == text[..i] + text[i..j] + text[j..]
  {
  }

  lemma EncodeParts(a: string, b: string, c: string)
    ensures EncodeUtf16(a + b + c) == EncodeUtf16(a) + EncodeUtf16(b) + EncodeUtf16(c)
    ensures EncodeUtf16(a + b) == EncodeUtf16(a) + EncodeUtf16(b)
  {
    EncodeUtf16Append(a, b);
    EncodeUtf16Append(a + b, c);
  }

  lemma TakeDropMiddle(a: seq<U16>, b: seq<U16>, c: seq<U16>, n: nat)
    requires n == |b| || (c == [] && n >= |b|)
    ensures Take(Drop(a + b + c, |a|), n) == b
  {
    if |a| < |a + b + c| {
      assert Drop(a + b + c, |a|) == b + c;
    }
  }

  /** Units ending in a high surrogate do not decode. */
  lemma {:induction false} DecodeEndsHigh(us: seq<U16>)
    requires us != [] && IsHighSurrogate(us[|us| - 1])
    ensures DecodeUtf16(us) == None
    decreases |us|
  {
    if !IsLowSurrogate(us[0]) && |us| > 1 {
      if IsHighSurrogate(us[0]) {
        if IsLowSurrogate(us[1]) && |us| > 2 {
          DecodeEndsHigh(us[2..]);
        }
      } else {
        DecodeEndsHigh(us[1..]);
      }
    }
  }

  /** An entity that starts or ends inside the surrogate pair of char `i` is an error. */
  lemma ExtractSplitsPair(e: MessageEntity, text: string, i: nat)
    requires i < |text| && (text[i] as int) >= 0x10000
    requires var at := |EncodeUtf16(text[..i])|;
      (e.offset == at + 1 && e.length >= 1) || (e.offset <= at && e.offset + e.length == at + 1)
    ensures Extract(e, text) == None
  {
    var at := |EncodeUtf16(text[..i])|;
    var pair := Utf16Units(text[i]);
    assert text == text[..i] + ([text[i]] + text[i + 1..]);
    EncodeUtf16Append(text[..i], [text[i]] + text[i + 1..]);
    assert EncodeUtf16([text[i]] + text[i + 1..]) == pair + EncodeUtf16(text[i + 1..]);
    var all := EncodeUtf16(text);
    assert all[at] == pair[0] && all[at + 1] == pair[1];
    var got := Take(Drop(all, e.offset), e.length);
    if e.offset == at + 1 {
      assert got[0] == pair[1];
    } else {
      assert got[|got| - 1] == pair[0];
      DecodeEndsHigh(got);
    }
  }

  // ---- replies and the API ----

  /** Message::reply_text: a plain, notifying reply in the same chat. */
  function ReplyText(msg: Message, text: string): (r: OutgoingText)
    ensures r.chatId == msg.chat.id && r.replyToMessageId == Some(msg.messageId)
    ensures r.text == text && r.parseMode.None? && !r.disableNotification
  {
    OutgoingText(msg.chat.id, text, false, None, Some(msg.messageId))
  }

  const UNEXPECTED_RESPONSE: string := "unexpected JSON response"
  const UNEXPECTED_RESULT: string := "unexpected JSON result"

  /** Api::get_result; `fromValue` stands for serde_json::from_value (None on failure). */
  function GetResult<J, T>(resp: Response<J>, fromValue: J -> Option<T>): (r: Result<T, Error>)
    ensures r.Ok? <==> resp.ok && resp.result.Some? && fromValue(resp.result.value).Some?
    ensures r.Ok? ==> r.value == fromValue(resp.result.value).value
    ensures r.Err? && resp.ok ==>
      r.error.desc == (if resp.result.None? then UNEXPECTED_RESPONSE else UNEXPECTED_RESULT)
    ensures !resp.ok && resp.errorCode.Some? && resp.description.Some? ==>
      r.error.desc == "Telegram Bot API Error: " + IntDecimal(resp.errorCode.value) + " " + resp.description.value
    ensures !resp.ok && (resp.errorCode.None? || resp.description.None?) ==> r.error.desc == UNEXPECTED_RESPONSE
  {
    if resp.ok then
      match resp.result
      case None => Err(Error(UNEXPECTED_RESPONSE))
      case Some(v) =>
        match fromValue(v)
        case None => Err(Error(UNEXPECTED_RESULT))
        case Some(x) => Ok(x)
    else if resp.errorCode.Some? && resp.description.Some? then
      Err(Error("Telegram Bot API Error: " + IntDecimal(resp.errorCode.value) + " " + resp.description.value))
    else
      Err(Error(UNEXPECTED_RESPONSE))
  }

  /** The part of Api that the bot changes: the update offset. */
  class Api {
    var baseurl: string
    var offset: int

    constructor (token: string)
      ensures baseurl == "https://api.telegram.org/bot" + token + "/" && offset == 0
    {
      baseurl := "https://api.telegram.org/bot" + token + "/";
      offset := 0;
    }

    /** Confirms every update up to `latestUpdate`. */
    method SetLatestUpdate(latestUpdate: int)
      requires I64_MIN <= latestUpdate < I64_MAX
      modifies this`offset
      ensures offset == latestUpdate + 1 && baseurl == old(baseurl)
    {
      offset := latestUpdate + 1;
    }
  }
}
