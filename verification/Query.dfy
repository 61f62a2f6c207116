/**
 Query strings: picking a parameter, percent-decoding it, and reading the scan limit.
 `Encodes` is the percent-encoding of section 2.1 of RFC 3986, stated independently of
 the decoder: any byte may be written as `%HH`, unreserved characters may stand for themselves;
 and a plus sign may stand for a space, as in the queries that forms send.
 */
module Query {
  import opened Text

  // ---- parameters ---------------------------------------------------------

  /** The text after the first `name=`, up to the next ampersand. */
  function Param(query: string, name: string): Option<string> {
    var p := Find(query, name + "=", 0);
    if p == -1 then None else
    var start := p + |name| + 1;
    var e := FindChar(query, '&', start);
    Some(query[start..if e == -1 then |query| else e])
  }

  // ---- percent-decoding ---------------------------------------------------

  /** `std::stoi` of two characters in base 16; None when it throws. */
  function HexNumber(a: char, b: char): Option<int> {
    var (x, y) := (HexValue(a), HexValue(b));
    if x.Some? then Some(if y.Some? then 16 * x.value + y.value else x.value)
    else if y.None? then None
    else if IsSpace(a) || a == '+' then Some(y.value)
    else if a == '-' then var n: int := y.value; Some(-n)
    else None
  }

  /** The low byte of an int, as the cast to char keeps it. */
  function LowByte(c: int): char { (c % 256) as char }

  function Before(s: string, r: Option<string>): Option<string> {
    if r.Some? then Some(s + r.value) else None
  }

  /** What the decode loop makes of the rest of a parameter. */
  function Decoded(t: string): Option<string> {
    if t == "" then Some("")
    else if t[0] == '%' && |t| > 2 then
      var c := HexNumber(t[1], t[2]);
      if c.None? then None else Before([LowByte(c.value)], Decoded(t[3..]))
    else Before([if t[0] == '+' then ' ' else t[0]], Decoded(t[1..]))
  }

  method Decode(raw: string) returns (r: Option<string>)
    ensures r == Decoded(raw)
  {
    var out := "";
    var i := 0;
    assert raw[0..] == raw;
    assert Decoded(raw).Some? ==> "" + Decoded(raw).value == Decoded(raw).value;
    while i < |raw|
      invariant 0 <= i <= |raw|
      invariant Decoded(raw) == Before(out, Decoded(raw[i..]))
    {
      if raw[i] == '%' && i + 2 < |raw| {
        var c := HexNumber(raw[i + 1], raw[i + 2]);
        if c.None? { return None; }
        assert raw[i..][3..] == raw[i + 3..];
        assert Decoded(raw[i..]) == Before([LowByte(c.value)], Decoded(raw[i + 3..]));
        BeforeTwice(out, [LowByte(c.value)], Decoded(raw[i + 3..]));
        out := out + [LowByte(c.value)];
        i := i + 3;
      } else {
        var c := if raw[i] == '+' then ' ' else raw[i];
        assert raw[i..][1..] == raw[i + 1..];
        BeforeTwice(out, [c], Decoded(raw[i + 1..]));
        out := out + [c];
        i := i + 1;
      }
    }
    assert out + "" == out;
    return Some(out);
  }

  lemma BeforeTwice(a: string, b: string, r: Option<string>)
    ensures Before(a, Before(b, r)) == Before(a + b, r)
  {
    if r.Some? { assert a + (b + r.value) == a + b + r.value; }
  }

  // ---- percent-encoding ---------------------------------------------------

  predicate Unreserved(c: char) {
    'A' <= c <= 'Z' || 'a' <= c <= 'z' || IsDigit(c) || c == '-' || c == '.' || c == '_' || c == '~'
  }

  /** One character for one byte. */
  predicate StandsFor(r: char, c: char) { (Unreserved(c) && r == c) || (c == ' ' && r == '+') }

  /** raw is a percent-encoding of the bytes of s. */
  predicate Encodes(raw: string, s: string) {
    if s == "" then raw == ""
    else
      || (raw != "" && StandsFor(raw[0], s[0]) && Encodes(raw[1..], s[1..]))
      || (|raw| >= 3 && raw[0] == '%' && HexValue(raw[1]).Some? && HexValue(raw[2]).Some?
          && 16 * HexValue(raw[1]).value + HexValue(raw[2]).value == s[0] as int && Encodes(raw[3..], s[1..]))
  }

  /** Decoding undoes every percent-encoding. */
  lemma {:induction false} DecodeEncoded(raw: string, s: string)
    requires Encodes(raw, s)
    ensures Decoded(raw) == Some(s)
  {
    if s != "" {
      assert s == [s[0]] + s[1..];
      if StandsFor(raw[0], s[0]) && Encodes(raw[1..], s[1..]) {
        DecodeEncoded(raw[1..], s[1..]);
      } else {
        DecodeEncoded(raw[3..], s[1..]);
      }
    }
  }

  /** A plus sign is a space. */
  lemma PlusIsSpace(raw: string)
    requires Decoded(raw).Some?
    ensures Decoded("+" + raw) == Some(" " + Decoded(raw).value)
  {
    assert ("+" + raw)[1..] == raw;
  }

  /**
   What stands after a percent sign need not be two hex digits: `std::stoi` takes a sign or
   white space before one digit, and one digit before anything; a sign makes the byte wrap
   around. Two characters that begin no number are an error.
   */
  lemma OddEscapes(c: char, x: char, rest: string)
    requires HexValue(c).Some? && HexValue(x).None? && Decoded(rest).Some?
    ensures var (d, r) := (HexValue(c).value, Decoded(rest).value);
      && Decoded(['%', c, x] + rest) == Some([d as char] + r)
      && (x == '-' ==> Decoded(['%', x, c] + rest) == Some([(if d == 0 then 0 else 256 - d) as char] + r))
      && (x == '+' || IsSpace(x) ==> Decoded(['%', x, c] + rest) == Some([d as char] + r))
      && (x != '-' && x != '+' && !IsSpace(x) ==> Decoded(['%', x, c] + rest).None?)
      && Decoded(['%', x, x] + rest).None?
  {
    assert (['%', c, x] + rest)[3..] == rest && (['%', x, c] + rest)[3..] == rest && (['%', x, x] + rest)[3..] == rest;
  }

  /** A percent sign among the last two characters stands for itself. */
  lemma PercentAtEnd(c: char)
    requires c != '+'
    ensures Decoded("%") == Some("%") && Decoded(['%', c]) == Some(['%', c])
  {
    var none := "";
    assert Decoded(none) == Some("");
    assert [c][1..] == none && Decoded([c]) == Before([c], Decoded(none)) && [c] + none == [c];
    assert "%"[1..] == none && Decoded("%") == Before("%", Decoded(none)) && "%" + none == "%";
    assert ['%', c][1..] == [c] && ['%'] + [c] == ['%', c];
  }

  const UPPER_HEX := "0123456789ABCDEF"

  lemma UpperHexValue(d: nat)
    requires d < 16
    ensures HexValue(UPPER_HEX[d]) == Some(d)
  {
  }

  /** A client's encoder: unreserved characters as they are, every other byte as `%HH`. */
  function Encode(s: string): (raw: string)
    requires IsBytes(s)
    ensures Encodes(raw, s)
  {
    if s == "" then ""
    else if Unreserved(s[0]) then
      var rest := Encode(s[1..]);
      assert ([s[0]] + rest)[1..] == rest;
      [s[0]] + rest
    else
      var (hi, lo) := (s[0] as int / 16, s[0] as int % 16);
      UpperHexValue(hi);
      UpperHexValue(lo);
      var rest := Encode(s[1..]);
      var raw := ['%', UPPER_HEX[hi], UPPER_HEX[lo]] + rest;
      assert raw[3..] == rest;
      raw
  }

  /** Encoded text never holds a character that the query syntax uses. */
  lemma {:induction false} EncodedIsInert(raw: string, s: string, i: nat)
    requires Encodes(raw, s) && i < |raw|
    ensures raw[i] == '%' || raw[i] == '+' || Unreserved(raw[i])
  {
    if s != "" && i > 0 {
      if StandsFor(raw[0], s[0]) && Encodes(raw[1..], s[1..]) {
        EncodedIsInert(raw[1..], s[1..], i - 1);
      } else if i >= 3 {
        EncodedIsInert(raw[3..], s[1..], i - 3);
      }
    }
  }

  // ---- the scan limit -----------------------------------------------------

  const DEFAULT_LIMIT := 1000
  const MAX_LIMIT := 10000
  const LONG_MAX := 0x7FFF_FFFF_FFFF_FFFF

  function LeadingDigits(s: string): (d: string)
    ensures AllDigits(d) && d <= s
  {
    if s != "" && IsDigit(s[0]) then [s[0]] + LeadingDigits(s[1..]) else ""
  }

  /** `std::stol` in base 10; None when it throws. */
  function LongOf(s: string): Option<int> {
    var t := SkipSpace(s);
    var neg := t != "" && t[0] == '-';
    var d := LeadingDigits(if neg || (t != "" && t[0] == '+') then t[1..] else t);
    if d == "" then None else
    var m: int := NatOf(d);
    var n := if neg then -m else m;
    if -LONG_MAX - 1 <= n <= LONG_MAX then Some(n) else None
  }

  /** The number of records a page may hold: the default when unreadable, clamped to 1..10000. */
  function LimitOf(s: string): (n: nat)
    ensures 1 <= n <= MAX_LIMIT
  {
    var v := if s == "" then Some(DEFAULT_LIMIT) else LongOf(s);
    var limit := if v.None? then DEFAULT_LIMIT else v.value;
    if limit < 1 then 1 else if limit > MAX_LIMIT then MAX_LIMIT else limit
  }

  // ---- the queries a client sends -----------------------------------------

  /** A page request: a decimal limit, or none, and the encoded cursor, or none. */
  function ScanQuery(limit: Option<nat>, raw: Option<string>): string {
    if raw.None? then (if limit.None? then "" else "limit=" + Decimal(limit.value))
    else if limit.None? then "after=" + raw.value
    else "limit=" + Decimal(limit.value) + "&after=" + raw.value
  }

  /** raw is what a client sends for a cursor: an encoding of it, or nothing at all for an empty one. */
  predicate Sends(raw: Option<string>, cursor: string) {
    if raw.Some? then Encodes(raw.value, cursor) else cursor == ""
  }

  function GetQuery(raw: string): string { "key=" + raw }

  lemma ParamOfLast(head: string, name: string, raw: string, s: string)
    requires Encodes(raw, s)
    requires At(head + name + "=" + raw, name + "=", |head|)
    requires forall i: nat :: i < |head| ==> !At(head + name + "=" + raw, name + "=", i)
    ensures Param(head + name + "=" + raw, name) == Some(raw)
  {
    hide At, Encodes, Find, FindChar, Unreserved;
    var q := head + name + "=" + raw;
    FindIs(q, name + "=", 0, |head|);
    var start := |head| + |name| + 1;
    NoAmpersand(raw, s);
    forall i | start <= i < |q| ensures q[i] != '&' {
      assert q[i] == raw[i - start];
    }
    assert FindChar(q, '&', start) == -1;
    assert q[start..|q|] == raw;
  }

  lemma NoAmpersand(raw: string, s: string)
    requires Encodes(raw, s)
    ensures '&' !in raw
  {
    hide Encodes;
    forall i | 0 <= i < |raw| ensures raw[i] != '&' { EncodedIsInert(raw, s, i); }
  }

  lemma ParamOfFirst(name: string, d: string, rest: string)
    requires AllDigits(d)
    ensures Param(name + "=" + d + "&" + rest, name) == Some(d)
  {
    var q := name + "=" + d + "&" + rest;
    var start := |name| + 1;
    assert q[0..start] == name + "=";
    FindIs(q, name + "=", 0, 0);
    forall i | start <= i < start + |d| ensures q[i] != '&' {
      assert q[i] == d[i - start];
    }
    FindCharIs(q, '&', start, start + |d|);
    assert q[start..start + |d|] == d;
  }

  lemma NoParam(q: string, name: string)
    requires forall i: nat :: !At(q, name + "=", i)
    ensures Param(q, name).None?
  {
  }

  lemma AfterOnly(raw: string, s: string)
    requires Encodes(raw, s)
    ensures Param("after=" + raw, "after") == Some(raw) && Param("after=" + raw, "limit").None?
  {
    hide Encodes, Find, FindChar, Param;
    var q := "after=" + raw;
    assert q == "" + "after" + "=" + raw;
    assert q[0..6] == "after" + "=";
    ParamOfLast("", "after", raw, s);
    forall i: nat ensures !At(q, "limit" + "=", i) {
      if 0 < i && i + 5 < |q| { EncodedIsInert(raw, s, i - 1); }
      NotAt(q, "limit" + "=", i, if i == 0 then 0 else 5);
    }
    NoParam(q, "limit");
  }

  lemma LimitThenAfter(d: string, raw: string, s: string)
    requires Encodes(raw, s) && AllDigits(d)
    ensures var q := "limit=" + d + "&after=" + raw;
      Param(q, "after") == Some(raw) && Param(q, "limit") == Some(d)
  {
    hide Encodes, Find, FindChar, Param;
    var head := "limit=" + d + "&";
    var q := "limit=" + d + "&after=" + raw;
    assert q == head + "after" + "=" + raw;
    assert q[|head|..|head| + 6] == "after" + "=";
    forall i: nat | i < |head| ensures !At(q, "after" + "=", i) {
      assert q[i] == head[i] && (6 <= i < 6 + |d| ==> head[i] == d[i - 6]);
      NotAt(q, "after" + "=", i, 0);
    }
    ParamOfLast(head, "after", raw, s);
    assert q == "limit" + "=" + d + "&" + ("after=" + raw);
    ParamOfFirst("limit", d, "after=" + raw);
  }

  lemma LimitOnly(d: string)
    requires AllDigits(d)
    ensures Param("limit=" + d, "limit") == Some(d) && Param("limit=" + d, "after").None?
  {
    hide Find, FindChar;
    var q := "limit=" + d;
    assert q[0..6] == "limit" + "=";
    FindIs(q, "limit" + "=", 0, 0);
    assert forall i :: 6 <= i < |q| ==> q[i] == d[i - 6];
    assert FindChar(q, '&', 6) == -1 && q[6..|q|] == d;
    forall i: nat ensures !At(q, "after" + "=", i) {
      NotAt(q, "after" + "=", i, 0);
    }
    NoParam(q, "after");
  }

  lemma NothingAsked(name: string)
    ensures Param("", name).None?
  {
    forall i: nat ensures !At("", name + "=", i) {
      NotAt("", name + "=", i, 0);
    }
    NoParam("", name);
  }

  /** The scan handler reads back the limit text and the cursor text a client sent, or that there was none. */
  lemma ScanParams(limit: Option<nat>, raw: Option<string>, cursor: string)
    requires Sends(raw, cursor)
    ensures Param(ScanQuery(limit, raw), "after") == raw
    ensures Param(ScanQuery(limit, raw), "limit") == if limit.Some? then Some(Decimal(limit.value)) else None
  {
    hide Encodes, Param, Decimal;
    if raw.None? {
      if limit.None? {
        NothingAsked("after");
        NothingAsked("limit");
      } else {
        LimitOnly(Decimal(limit.value));
      }
    } else {
      AfterOnly(raw.value, cursor);
      if limit.Some? { LimitThenAfter(Decimal(limit.value), raw.value, cursor); }
    }
  }

  lemma GetParam(raw: string, s: string)
    requires Encodes(raw, s)
    ensures Param(GetQuery(raw), "key") == Some(raw)
  {
    var q := GetQuery(raw);
    assert q == "" + "key" + "=" + raw;
    assert q[0..4] == "key" + "=";
    ParamOfLast("", "key", raw, s);
  }

  function Clamped(v: int): (n: nat)
    ensures 1 <= n <= MAX_LIMIT && (1 <= v <= MAX_LIMIT ==> n == v)
    ensures (v < 1 ==> n == 1) && (v > MAX_LIMIT ==> n == MAX_LIMIT)
  {
    if v < 1 then 1 else if v > MAX_LIMIT then MAX_LIMIT else v
  }

  /**
   White space, perhaps a sign, and digits are read as their number, clamped, whatever
   follows them; a number that no long holds, or no number, leaves the default.
   */
  lemma LimitOfText(before: string, sign: string, d: string, rest: string)
    requires AllSpace(before) && (sign == "" || sign == "+" || sign == "-")
    requires AllDigits(d) && (rest != "" ==> !IsDigit(rest[0]))
    requires d == "" ==> sign != "" || rest == "" || (rest[0] != '+' && rest[0] != '-' && !IsSpace(rest[0]))
    ensures d == "" ==> LimitOf(before + (sign + (d + rest))) == DEFAULT_LIMIT
    ensures d != "" ==>
      var v: int := if sign == "-" then -(NatOf(d) as int) else NatOf(d);
      LimitOf(before + (sign + (d + rest))) == if -LONG_MAX - 1 <= v <= LONG_MAX then Clamped(v) else DEFAULT_LIMIT
  {
    hide NatOf;
    var t := sign + (d + rest);
    assert t != "" ==> t[0] == if sign != "" then sign[0] else if d != "" then d[0] else rest[0];
    SkipsSpaces(before, t);
    assert (if t != "" && (t[0] == '-' || t[0] == '+') then t[1..] else t) == d + rest;
    LeadingOf(d, rest);
  }

  lemma {:induction false} LeadingOf(d: string, rest: string)
    requires AllDigits(d) && (rest != "" ==> !IsDigit(rest[0]))
    ensures LeadingDigits(d + rest) == d
  {
    if d == "" {
      assert d + rest == rest;
    } else {
      assert (d + rest)[1..] == d[1..] + rest;
      LeadingOf(d[1..], rest);
      assert d == [d[0]] + d[1..];
    }
  }

  /** A decimal limit is read as itself, clamped. */
  lemma LimitOfDecimal(n: nat)
    requires n <= LONG_MAX
    ensures LimitOf(Decimal(n)) == if n < 1 then 1 else if n > MAX_LIMIT then MAX_LIMIT else n
  {
    var (d, none) := (Decimal(n), "");
    NatOfDecimal(n);
    assert none + (none + (d + none)) == d;
    LimitOfText(none, none, d, none);
  }
}
