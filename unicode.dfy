/** The two encodings the source meets: UTF-8, in which Rust measures and slices
    `String`s (`len`, `truncate`, `&s[i..j]`), and UTF-16, in which Telegram counts
    message-entity offsets. */
module Unicode {
  import opened Wrappers

  // ---- UTF-8 ----

  /** Bytes of `c` in UTF-8. */
  function Utf8Width(c: char): (w: nat)
    ensures 1 <= w <= 4
    ensures w == 1 <==> (c as int) < 0x80
  {
    if (c as int) < 0x80 then 1
    else if (c as int) < 0x800 then 2
    else if (c as int) < 0x10000 then 3
    else 4
  }

  /** `str::len`: the UTF-8 length in bytes. */
  function Utf8Len(s: string): (n: nat)
    ensures n >= |s|
  {
    if s == [] then 0 else Utf8Width(s[0]) + Utf8Len(s[1..])
  }

  predicate IsAscii(s: string)
  {
    forall i :: 0 <= i < |s| ==> (s[i] as int) < 0x80
  }

  lemma {:induction false} Utf8LenAppend(u: string, v: string)
    ensures Utf8Len(u + v) == Utf8Len(u) + Utf8Len(v)
    decreases |u|
  {
    if u == [] {
      assert u + v == v;
    } else {
      assert (u + v)[1..] == u[1..] + v;
      Utf8LenAppend(u[1..], v);
    }
  }

  /** ASCII text is one byte per char. */
  lemma {:induction false} Utf8LenAscii(s: string)
    requires IsAscii(s)
    ensures Utf8Len(s) == |s|
    decreases |s|
  {
    if s != [] {
      Utf8LenAscii(s[1..]);
    }
  }

  /** The number of leading chars that fill exactly `i` bytes, or None when byte `i`
      is not a char boundary of `s` (where Rust's string slicing panics). */
  function CharsIn(s: string, i: nat): (r: Option<nat>)
    ensures r.Some? ==> r.value <= |s| && Utf8Len(s[..r.value]) == i
    decreases |s|
  {
    if i == 0 then Some(0)
    else if s == [] || i < Utf8Width(s[0]) then None
    else match CharsIn(s[1..], i - Utf8Width(s[0]))
      case None => None
      case Some(k) => assert s[..k + 1] == [s[0]] + s[1..][..k]; Some(k + 1)
  }

  /** Every prefix ends on a boundary: `CharsIn` finds it. */
  lemma {:induction false} CharsInPrefix(s: string, k: nat)
    requires k <= |s|
    ensures CharsIn(s, Utf8Len(s[..k])) == Some(k)
    decreases k
  {
    if k > 0 {
      assert s[..k] == [s[0]] + s[1..][..k - 1];
      assert s[..k][1..] == s[1..][..k - 1];
      CharsInPrefix(s[1..], k - 1);
    }
  }

  /** Boundaries come in the order of their byte offsets. */
  lemma CharsInOrder(s: string, i: nat, j: nat)
    requires i <= j && CharsIn(s, i).Some? && CharsIn(s, j).Some?
    ensures CharsIn(s, i).value <= CharsIn(s, j).value
  {
    var a, b := CharsIn(s, i).value, CharsIn(s, j).value;
    var lo, hi := if a <= b then a else b, if a <= b then b else a;
    PrefixGrows(s, lo, hi);
  }

  /** A longer prefix has at least one more byte per extra char. */
  lemma PrefixGrows(s: string, x: nat, y: nat)
    requires x <= y <= |s|
    ensures Utf8Len(s[..x]) + (y - x) <= Utf8Len(s[..y])
  {
    assert s[..y] == s[..x] + s[x..y];
    Utf8LenAppend(s[..x], s[x..y]);
  }

  /** In ASCII text every byte offset is a boundary. */
  lemma CharsInAscii(s: string, i: nat)
    requires IsAscii(s) && i <= |s|
    ensures CharsIn(s, i) == Some(i)
  {
    assert IsAscii(s[..i]);
    Utf8LenAscii(s[..i]);
    CharsInPrefix(s, i);
  }

  /** `&s[..i]`: None where the slice panics. */
  function SliceTo(s: string, i: nat): (r: Option<string>)
    ensures r.Some? ==> r.value <= s && Utf8Len(r.value) == i
  {
    match CharsIn(s, i)
    case None => None
    case Some(k) => Some(s[..k])
  }

  /** The bytes of a prefix end on a char boundary: slicing there gives the prefix. */
  lemma SliceToPrefix(s: string, t: string)
    ensures SliceTo(s + t, Utf8Len(s)) == Some(s)
  {
    assert (s + t)[..|s|] == s;
    CharsInPrefix(s + t, |s|);
  }

  /** `String::truncate` to the bytes of `s` in front of an ASCII tail `t` cuts off `t`. */
  lemma DropAsciiTail(s: string, t: string)
    requires IsAscii(t)
    ensures Utf8Len(s + t) == Utf8Len(s) + |t|
    ensures SliceTo(s + t, Utf8Len(s)) == Some(s)
  {
    Utf8LenAppend(s, t);
    Utf8LenAscii(t);
    SliceToPrefix(s, t);
  }

  /** `&s[i..]`: None where the slice panics. */
  function SliceFrom(s: string, i: nat): (r: Option<string>)
    ensures r.Some? ==> exists k :: 0 <= k <= |s| && r.value == s[k..] && Utf8Len(s[..k]) == i
  {
    match CharsIn(s, i)
    case None => None
    case Some(k) => Some(s[k..])
  }

  // ---- UTF-16 ----

  type U16 = x: nat | x < 0x10000

  predicate IsHighSurrogate(u: U16) { 0xD800 <= u < 0xDC00 }
  predicate IsLowSurrogate(u: U16) { 0xDC00 <= u < 0xE000 }

  /** The code units of `c` in UTF-16: one, or a high and a low surrogate. */
  function Utf16Units(c: char): (us: seq<U16>)
    ensures 1 <= |us| <= 2 && (|us| == 2 <==> (c as int) >= 0x10000)
    ensures |us| == 1 ==> !IsHighSurrogate(us[0]) && !IsLowSurrogate(us[0])
    ensures |us| == 2 ==> IsHighSurrogate(us[0]) && IsLowSurrogate(us[1])
  {
    var v := c as int;
    if v < 0x10000 then [v as U16]
    else [(0xD800 + (v - 0x10000) / 0x400) as U16, (0xDC00 + (v - 0x10000) % 0x400) as U16]
  }

  /** `str::encode_utf16`. */
  function EncodeUtf16(s: string): seq<U16>
  {
    if s == [] then [] else Utf16Units(s[0]) + EncodeUtf16(s[1..])
  }

  /** No char takes more UTF-16 units than UTF-8 bytes. */
  lemma {:induction false} Utf16NotLonger(s: string)
    ensures |EncodeUtf16(s)| <= Utf8Len(s)
    decreases |s|
  {
    if s != [] {
      Utf16NotLonger(s[1..]);
    }
  }

  /** The char a surrogate pair stands for. */
  function Combine(hi: U16, lo: U16): (c: char)
    requires IsHighSurrogate(hi) && IsLowSurrogate(lo)
    ensures (c as int) >= 0x10000
  {
    (0x10000 + (hi - 0xD800) * 0x400 + (lo - 0xDC00)) as char
  }

  /** A surrogate pair is the encoding of the char it stands for. */
  lemma UnitsCombine(hi: U16, lo: U16)
    requires IsHighSurrogate(hi) && IsLowSurrogate(lo)
    ensures Utf16Units(Combine(hi, lo)) == [hi, lo]
  {
    var h, l := hi - 0xD800, lo - 0xDC00;
    var v := h * 0x400 + l;
    DivModUnique(v, h, l);
  }

  lemma DivModUnique(v: int, q: int, r: int)
    requires 0 <= r < 0x400 && 0 <= q && v == q * 0x400 + r
    ensures v / 0x400 == q && v % 0x400 == r
  {
  }

  /** `String::from_utf16`: None for an unpaired surrogate; what it decodes encodes back
      to exactly the units it was given. */
  function DecodeUtf16(us: seq<U16>): (r: Option<string>)
    ensures r.Some? ==> EncodeUtf16(r.value) == us
  {
    if us == [] then Some([])
    else if IsLowSurrogate(us[0]) then None
    else if IsHighSurrogate(us[0]) then
      if |us| < 2 || !IsLowSurrogate(us[1]) then None
      else match DecodeUtf16(us[2..])
        case None => None
        case Some(t) =>
          UnitsCombine(us[0], us[1]);
          assert us == [us[0], us[1]] + us[2..];
          Some([Combine(us[0], us[1])] + t)
    else match DecodeUtf16(us[1..])
      case None => None
      case Some(t) =>
        assert us == [us[0]] + us[1..];
        Some([us[0] as char] + t)
  }

  lemma CombineUnits(c: char)
    requires (c as int) >= 0x10000
    ensures Combine(Utf16Units(c)[0], Utf16Units(c)[1]) == c
  {
    var v := c as int - 0x10000;
    assert (v / 0x400) * 0x400 + v % 0x400 == v;
  }

  lemma {:induction false} EncodeUtf16Append(u: string, v: string)
    ensures EncodeUtf16(u + v) == EncodeUtf16(u) + EncodeUtf16(v)
    decreases |u|
  {
    if u == [] {
      assert u + v == v;
    } else {
      assert (u + v)[1..] == u[1..] + v;
      EncodeUtf16Append(u[1..], v);
    }
  }

  /** One char's units in front of decodable units decode to that char in front. */
  lemma DecodeCons(c: char, rest: seq<U16>, t: string)
    requires DecodeUtf16(rest) == Some(t)
    ensures DecodeUtf16(Utf16Units(c) + rest) == Some([c] + t)
  {
    var us := Utf16Units(c);
    if |us| == 2 {
      assert (us + rest)[2..] == rest;
      CombineUnits(c);
    } else {
      assert (us + rest)[1..] == rest;
      assert us[0] as char == c;
    }
  }

  /** Decoding what was encoded gives the text back. */
  lemma {:induction false} DecodeEncodeUtf16(s: string)
    ensures DecodeUtf16(EncodeUtf16(s)) == Some(s)
    decreases |s|
  {
    if s != [] {
      DecodeEncodeUtf16(s[1..]);
      DecodeCons(s[0], EncodeUtf16(s[1..]), s[1..]);
      assert [s[0]] + s[1..] == s;
    }
  }
}
