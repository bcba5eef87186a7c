/** Times of day as (hour, minute, second) triples (src/main.rs): their comparison, the
    configured switch-over time and the choice between today's and tomorrow's menu. */
module MenuTime {
  import opened Wrappers
  import opened Strings
  import opened Numbers

  type Time = (int, int, int)

  /** `x` is earlier than `y`: lexicographic order on hour, minute, second. */
  predicate Before(x: Time, y: Time)
  {
    x.0 < y.0 || (x.0 == y.0 && (x.1 < y.1 || (x.1 == y.1 && x.2 < y.2)))
  }

  /** time_cmp: negative, zero or positive as `x` is earlier than, equal to or later
      than `y`. */
  function TimeCmp(x: Time, y: Time): (r: int)
    ensures r == 0 <==> x == y
    ensures r < 0 <==> Before(x, y)
    ensures r > 0 <==> Before(y, x)
  {
    var r0 := x.0 - y.0;
    if r0 != 0 then r0
    else
      var r1 := x.1 - y.1;
      if r1 != 0 then r1 else x.2 - y.2
  }

  const LATEST: Time := (24, 0, 0)

  function InvalidTimestamp(s: string): string
  {
    "invalid timestamp '" + s + "'"
  }

  /** parse_tomorrow: two or three `:`-separated `u8` fields, the seconds 0 when left out,
      no later than 24:00:00; minutes and seconds are not checked against 59. */
  function ParseTomorrow(s: string): (r: Result<Time, string>)
    ensures r.Ok? ==> 2 <= |SplitOn(s, ':')| <= 3 && !Before(LATEST, r.value)
    ensures r.Ok? ==> 0 <= r.value.0 <= U8_MAX && 0 <= r.value.1 <= U8_MAX && 0 <= r.value.2 <= U8_MAX
    ensures r.Ok? ==> forall k :: 0 <= k < |SplitOn(s, ':')| ==> ParseU8(SplitOn(s, ':')[k]).Some?
    ensures r.Ok? ==> r.value.0 == ParseU8(SplitOn(s, ':')[0]).value as int
    ensures r.Ok? ==> r.value.1 == ParseU8(SplitOn(s, ':')[1]).value as int
    ensures r.Ok? && |SplitOn(s, ':')| == 3 ==> r.value.2 == ParseU8(SplitOn(s, ':')[2]).value as int
    ensures r.Ok? && |SplitOn(s, ':')| == 2 ==> r.value.2 == 0
    ensures r.Err? ==> r.error == InvalidTimestamp(s)
  {
    var ps := SplitOn(s, ':');
    if 2 <= |ps| <= 3 && forall k :: 0 <= k < |ps| ==> ParseU8(ps[k]).Some? then
      var t := (ParseU8(ps[0]).value as int, ParseU8(ps[1]).value as int,
                if |ps| == 3 then ParseU8(ps[2]).value as int else 0);
      if TimeCmp(LATEST, t) >= 0 then Ok(t) else Err(InvalidTimestamp(s))
    else Err(InvalidTimestamp(s))
  }

  function Join3(a: string, b: string, c: string): string
  {
    a + ":" + b + ":" + c
  }

  lemma JoinThree(a: string, b: string, c: string)
    ensures Join([a, b, c], [':']) == Join3(a, b, c)
  {
    assert [a, b, c][1..] == [b, c];
    assert [b, c][1..] == [c];
    assert Join([b, c], [':']) == b + ":" + c;
    assert a + ":" + (b + ":" + c) == a + ":" + b + ":" + c;
  }

  lemma JoinTwo(a: string, b: string)
    ensures Join([a, b], [':']) == a + ":" + b
  {
    assert [a, b][1..] == [b];
  }

  lemma DecimalNoColon(n: nat)
    ensures ':' !in Decimal(n)
  {
    var d := Decimal(n);
    forall i | 0 <= i < |d|
      ensures d[i] != ':'
    {
      assert IsDigit(d[i]);
    }
  }

  /** Three fields without a colon, each a `u8`, are read as that time, refused exactly
      when it is later than 24:00:00. */
  lemma ParseTomorrowFields(a: string, b: string, c: string)
    requires ':' !in a && ':' !in b && ':' !in c
    requires ParseU8(a).Some? && ParseU8(b).Some? && ParseU8(c).Some?
    ensures var t := (ParseU8(a).value as int, ParseU8(b).value as int, ParseU8(c).value as int);
      ParseTomorrow(Join3(a, b, c)) == if Before(LATEST, t) then Err(InvalidTimestamp(Join3(a, b, c))) else Ok(t)
  {
    JoinThree(a, b, c);
    SplitOnJoin([a, b, c], ':');
  }

  /** Two fields without a colon, each a `u8`, are read as that hour and minute with zero
      seconds, refused exactly when the time is later than 24:00:00. */
  lemma ParseTomorrowTwoFields(a: string, b: string)
    requires ':' !in a && ':' !in b
    requires ParseU8(a).Some? && ParseU8(b).Some?
    ensures var t := (ParseU8(a).value as int, ParseU8(b).value as int, 0);
      ParseTomorrow(a + ":" + b) == if Before(LATEST, t) then Err(InvalidTimestamp(a + ":" + b)) else Ok(t)
  {
    JoinTwo(a, b);
    SplitOnJoin([a, b], ':');
  }

  /** "20:00" is accepted with zero seconds. */
  lemma ShortDefault()
    ensures ParseTomorrow("20:00") == Ok((20, 0, 0))
  {
    assert "20"[..1] == "2" && "00"[..1] == "0";
    assert DigitsValue("2") == 2 && DigitsValue("0") == 0;
    assert ParseU8("20") == Some(20) && ParseU8("00") == Some(0);
    assert "20" + ":" + "00" == "20:00";
    ParseTomorrowTwoFields("20", "00");
  }

  /** Three written fields are read back; the time is refused exactly when it is later
      than 24:00:00. */
  lemma ParseTomorrowThree(h: nat, m: nat, sec: nat)
    requires h <= U8_MAX && m <= U8_MAX && sec <= U8_MAX
    ensures ParseTomorrow(Join3(Decimal(h), Decimal(m), Decimal(sec))) ==
      if Before(LATEST, (h, m, sec)) then Err(InvalidTimestamp(Join3(Decimal(h), Decimal(m), Decimal(sec))))
      else Ok((h, m, sec))
  {
    DecimalNoColon(h);
    DecimalNoColon(m);
    DecimalNoColon(sec);
    ParseU8Decimal(h);
    ParseU8Decimal(m);
    ParseU8Decimal(sec);
    ParseTomorrowFields(Decimal(h), Decimal(m), Decimal(sec));
  }

  /** Two written fields are read back with zero seconds. */
  lemma ParseTomorrowTwo(h: nat, m: nat)
    requires h <= U8_MAX && m <= U8_MAX
    ensures ParseTomorrow(Decimal(h) + ":" + Decimal(m)) ==
      if Before(LATEST, (h, m, 0)) then Err(InvalidTimestamp(Decimal(h) + ":" + Decimal(m)))
      else Ok((h, m, 0))
  {
    DecimalNoColon(h);
    DecimalNoColon(m);
    ParseU8Decimal(h);
    ParseU8Decimal(m);
    ParseTomorrowTwoFields(Decimal(h), Decimal(m));
  }

  /** The default switch-over time is 20:00:00. */
  lemma DefaultTomorrow()
    ensures ParseTomorrow("20:00:00") == Ok((20, 0, 0))
  {
    assert "20"[..1] == "2" && "00"[..1] == "0";
    assert DigitsValue("2") == 2 && DigitsValue("0") == 0;
    assert ParseU8("20") == Some(20) && ParseU8("00") == Some(0);
    assert Join3("20", "00", "00") == "20:00:00";
    ParseTomorrowFields("20", "00", "00");
  }

  /** Minutes are not range-checked: "23:75" is accepted. */
  lemma MinutesUnchecked()
    ensures ParseTomorrow("23:75") == Ok((23, 75, 0))
  {
    assert Decimal(23) == "23";
    assert Decimal(75) == "75";
    assert "23" + ":" + "75" == "23:75";
    ParseTomorrowTwo(23, 75);
  }

  const TODAY_URL: string := "https://www.studentenwerk-dresden.de/mensen/speiseplan/"
  const TOMORROW_URL: string := "https://www.studentenwerk-dresden.de/mensen/speiseplan/morgen.html"

  /** get_menu_url, with the wall-clock time of day passed in: tomorrow's menu from the
      switch-over time on. */
  function MenuUrl(now: Time, tomorrow: Time): (url: string)
    ensures url == TOMORROW_URL <==> !Before(now, tomorrow)
    ensures url == TODAY_URL <==> Before(now, tomorrow)
  {
    if TimeCmp(now, tomorrow) >= 0 then TOMORROW_URL else TODAY_URL
  }
}
