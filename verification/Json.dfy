/**
 The JSON text the service writes, and an independent reader for it.
 `Escaped`, `Record` and `ScanBody` are what the service prints; `ReadString` and
 `ReadScan` follow the string grammar of section 7 of RFC 8259, bytewise, and the
 shape of a `/scan` response.
 */
module Json {
  import opened Text

  datatype Pair = Pair(key: string, value: string)

  datatype Page = Page(records: seq<Pair>, next: Option<string>)

  const BACKSPACE: char := 8 as char
  const FORM_FEED: char := 12 as char
  const HEX := "0123456789abcdef"

  // ---- writer -------------------------------------------------------------

  /** What one byte of a string becomes between JSON quotes. */
  function EscapedChar(c: char): string {
    if c == '"' then "\\\""
    else if c == '\\' then "\\\\"
    else if c == BACKSPACE then "\\b"
    else if c == FORM_FEED then "\\f"
    else if c == '\n' then "\\n"
    else if c == '\r' then "\\r"
    else if c == '\t' then "\\t"
    else if c < ' ' then "\\u00" + [HEX[c as int / 16], HEX[c as int % 16]]
    else [c]
  }

  function Escaped(s: string): string {
    if s == [] then [] else EscapedChar(s[0]) + Escaped(s[1..])
  }

  lemma {:induction false} EscapedAppend(a: string, b: string)
    ensures Escaped(a + b) == Escaped(a) + Escaped(b)
  {
    if a == [] {
      assert a + b == b;
    } else {
      assert (a + b)[1..] == a[1..] + b;
      EscapedAppend(a[1..], b);
    }
  }

  method Escape(s: string) returns (r: string)
    ensures r == Escaped(s)
  {
    r := "";
    for i := 0 to |s|
      invariant r == Escaped(s[..i])
    {
      var c := s[i];
      EscapedAppend(s[..i], [c]);
      assert Escaped([c]) == EscapedChar(c) by { assert [c][1..] == []; }
      assert s[..i + 1] == s[..i] + [c];
      if c == '"' { r := r + "\\\""; }
      else if c == '\\' { r := r + "\\\\"; }
      else if c == BACKSPACE { r := r + "\\b"; }
      else if c == FORM_FEED { r := r + "\\f"; }
      else if c == '\n' { r := r + "\\n"; }
      else if c == '\r' { r := r + "\\r"; }
      else if c == '\t' { r := r + "\\t"; }
      else if c < ' ' {
        r := r + ("\\u00" + [HEX[c as int / 16], HEX[c as int % 16]]);
      } else {
        r := r + [c];
      }
    }
    assert s[..|s|] == s;
  }

  /** One record of a response: `{"key":"...","value":"..."}`. */
  function Record(k: string, v: string): string {
    "{\"key\":\"" + Escaped(k) + "\",\"value\":\"" + Escaped(v) + "\"}"
  }

  /** Records separated by commas. */
  function Records(ps: seq<Pair>): string {
    if ps == [] then ""
    else if |ps| == 1 then Record(ps[0].key, ps[0].value)
    else Record(ps[0].key, ps[0].value) + "," + Records(ps[1..])
  }

  function Ending(next: Option<string>): string {
    (if next.Some? then ",\"next\":\"" + Escaped(next.value) + "\"" else "") + "}"
  }

  /** The body of a `/scan` response. */
  function ScanBody(p: Page): string {
    "{\"records\":[" + Records(p.records) + "]"
    + Ending(p.next)
  }

  // ---- reader -------------------------------------------------------------

  function HexValue4(s: string): Option<nat>
    requires |s| == 4
  {
    match (HexValue(s[0]), HexValue(s[1]), HexValue(s[2]), HexValue(s[3]))
    case (Some(a), Some(b), Some(c), Some(d)) => Some(4096 * a + 256 * b + 16 * c + d)
    case _ => None
  }

  /** The bytes of a UTF-16 code unit of a `\u` escape. */
  function Utf8(u: nat): string {
    if u < 0x80 then [u as char]
    else if u < 0x800 then [(0xC0 + u / 64) as char, (0x80 + u % 64) as char]
    else [(0xE0 + u / 4096 % 16) as char, (0x80 + u / 64 % 64) as char, (0x80 + u % 64) as char]
  }

  function ShortEscape(c: char): Option<char> {
    if c == '"' || c == '\\' || c == '/' then Some(c)
    else if c == 'b' then Some(BACKSPACE)
    else if c == 'f' then Some(FORM_FEED)
    else if c == 'n' then Some('\n')
    else if c == 'r' then Some('\r')
    else if c == 't' then Some('\t')
    else None
  }

  function Prepend(a: string, r: Option<(string, string)>): Option<(string, string)> {
    if r.Some? then Some((a + r.value.0, r.value.1)) else None
  }

  /** Read the rest of a JSON string after its opening quote: its bytes and what follows. */
  function ReadString(t: string): (r: Option<(string, string)>)
    ensures r.Some? ==> |r.value.1| < |t|
  {
    if t == "" then None
    else if t[0] == '"' then Some(("", t[1..]))
    else if t[0] == '\\' then
      if |t| < 2 then None
      else if t[1] == 'u' then
        if |t| < 6 || HexValue4(t[2..6]).None? then None
        else Prepend(Utf8(HexValue4(t[2..6]).value), ReadString(t[6..]))
      else if ShortEscape(t[1]).None? then None
      else Prepend([ShortEscape(t[1]).value], ReadString(t[2..]))
    else if t[0] < ' ' then None
    else Prepend([t[0]], ReadString(t[1..]))
  }

  /** What follows a literal, when t starts with it. */
  function Expect(t: string, lit: string): (r: Option<string>)
    ensures r.Some? ==> |r.value| + |lit| == |t|
  {
    if lit <= t then Some(t[|lit|..]) else None
  }

  /** A string introduced by a literal, such as `{"key":"`. */
  function ReadAfter(t: string, lit: string): (r: Option<(string, string)>)
    ensures r.Some? ==> |r.value.1| + |lit| < |t|
  {
    var u := Expect(t, lit);
    if u.None? then None else ReadString(u.value)
  }

  function ReadRecord(t: string): (r: Option<(Pair, string)>)
    ensures r.Some? ==> |r.value.1| < |t|
  {
    var k := ReadAfter(t, "{\"key\":\"");
    if k.None? then None else
    var v := ReadAfter(k.value.1, ",\"value\":\"");
    if v.None? then None else
    var u := Expect(v.value.1, "}");
    if u.None? then None else Some((Pair(k.value.0, v.value.0), u.value))
  }

  /** One or more records separated by commas. */
  function ReadRecords(t: string): Option<(seq<Pair>, string)>
    decreases |t|
  {
    var p := ReadRecord(t);
    if p.None? then None else
    var u := Expect(p.value.1, ",");
    if u.None? || Expect(u.value, "{").None? then Some(([p.value.0], p.value.1)) else
    var rest := ReadRecords(u.value);
    if rest.None? then None else Some(([p.value.0] + rest.value.0, rest.value.1))
  }

  function ReadRecordList(t: string): Option<(seq<Pair>, string)> {
    if Expect(t, "{").Some? then ReadRecords(t) else Some(([], t))
  }

  /** The end of a response: the closing bracket, perhaps a cursor, the closing brace. */
  function ReadEnding(rs: seq<Pair>, t: string): Option<Page> {
    var u := Expect(t, "]");
    if u.None? then None
    else if u.value == "}" then Some(Page(rs, None))
    else
      var n := ReadAfter(u.value, ",\"next\":\"");
      if n.Some? && n.value.1 == "}" then Some(Page(rs, Some(n.value.0))) else None
  }

  /** A whole `/scan` response body. */
  function ReadScan(t: string): Option<Page> {
    var u := Expect(t, "{\"records\":[");
    if u.None? then None else
    var rs := ReadRecordList(u.value);
    if rs.None? then None else ReadEnding(rs.value.0, rs.value.1)
  }

  // ---- the reader undoes the writer ---------------------------------------

  lemma ReadUnicodeEscape(c: char, rest: string)
    requires c < ' '
    ensures ReadString("\\u00" + [HEX[c as int / 16], HEX[c as int % 16]] + rest) == Prepend([c], ReadString(rest))
  {
    var hex := "00" + [HEX[c as int / 16], HEX[c as int % 16]];
    var t := "\\u" + hex + rest;
    assert "\\u00" + [HEX[c as int / 16], HEX[c as int % 16]] + rest == t;
    assert t[2..6] == hex && t[6..] == rest;
    assert HexValue4(hex) == Some(c as int);
  }

  lemma ReadShortEscape(e: char, c: char, rest: string)
    requires ShortEscape(e) == Some(c) && e != 'u'
    ensures ReadString("\\" + [e] + rest) == Prepend([c], ReadString(rest))
  {
    var t := "\\" + [e] + rest;
    assert t[2..] == rest;
  }

  lemma ReadPlain(c: char, rest: string)
    requires c >= ' ' && c != '"' && c != '\\'
    ensures ReadString([c] + rest) == Prepend([c], ReadString(rest))
  {
    assert ([c] + rest)[1..] == rest;
  }

  lemma ReadEscapedChar(c: char, rest: string)
    ensures ReadString(EscapedChar(c) + rest) == Prepend([c], ReadString(rest))
  {
    hide ReadString, Prepend;
    if |EscapedChar(c)| == 2 {
      assert EscapedChar(c) == "\\" + [EscapedChar(c)[1]];
      ReadShortEscape(EscapedChar(c)[1], c, rest);
    } else if c < ' ' {
      ReadUnicodeEscape(c, rest);
    } else {
      ReadPlain(c, rest);
    }
  }

  /** Reading back an escaped string gives the string, whatever bytes it holds. */
  lemma {:induction false} ReadEscaped(s: string, rest: string)
    ensures ReadString(Escaped(s) + "\"" + rest) == Some((s, rest))
  {
    if s == [] {
      assert Escaped(s) + "\"" + rest == "\"" + rest;
      assert ("\"" + rest)[1..] == rest;
    } else {
      var tail := Escaped(s[1..]) + "\"" + rest;
      assert Escaped(s) + "\"" + rest == EscapedChar(s[0]) + tail;
      ReadEscapedChar(s[0], tail);
      ReadEscaped(s[1..], rest);
      assert [s[0]] + s[1..] == s;
    }
  }

  /** The escaper never merges two strings. */
  lemma EscapedInjective(a: string, b: string)
    requires Escaped(a) == Escaped(b)
    ensures a == b
  {
    ReadEscaped(a, "");
    ReadEscaped(b, "");
  }

  lemma ReadAfterEscaped(lit: string, s: string, rest: string)
    ensures ReadAfter(lit + Escaped(s) + "\"" + rest, lit) == Some((s, rest))
  {
    var t := lit + Escaped(s) + "\"" + rest;
    assert t[|lit|..] == Escaped(s) + "\"" + rest;
    ReadEscaped(s, rest);
  }

  lemma ReadOneRecord(p: Pair, rest: string)
    ensures ReadRecord(Record(p.key, p.value) + rest) == Some((p, rest))
  {
    hide Escaped, ReadString;
    var tail := ",\"value\":\"" + Escaped(p.value) + "\"" + ("}" + rest);
    assert Record(p.key, p.value) + rest == "{\"key\":\"" + Escaped(p.key) + "\"" + tail;
    ReadAfterEscaped("{\"key\":\"", p.key, tail);
    ReadAfterEscaped(",\"value\":\"", p.value, "}" + rest);
    assert ("}" + rest)[1..] == rest;
  }

  lemma ReadLastRecord(t: string, p: Pair, rest: string)
    requires ReadRecord(t) == Some((p, "]" + rest))
    ensures ReadRecords(t) == Some(([p], "]" + rest))
  {
    assert ("]" + rest)[0] == ']';
  }

  lemma ReadMoreRecords(t: string, p: Pair, tail: string, ps: seq<Pair>, rest: string)
    requires ReadRecord(t) == Some((p, "," + tail))
    requires tail != "" && tail[0] == '{'
    requires ReadRecords(tail) == Some((ps, rest))
    ensures ReadRecords(t) == Some(([p] + ps, rest))
  {
    assert ("," + tail)[1..] == tail;
  }

  lemma Regroup(a: string, b: string, c: string, d: string, e: string)
    ensures (a + b + c) + d + e == a + (b + (c + d + e))
  {
  }

  lemma {:induction false} ReadAllRecords(ps: seq<Pair>, rest: string)
    requires ps != []
    ensures ReadRecords(Records(ps) + "]" + rest) == Some((ps, "]" + rest))
  {
    hide Record, ReadRecord, ReadRecords;
    var p := ps[0];
    var t := Records(ps) + "]" + rest;
    if |ps| == 1 {
      assert t == Record(p.key, p.value) + ("]" + rest);
      ReadOneRecord(p, "]" + rest);
      ReadLastRecord(t, p, rest);
      assert ps == [p];
    } else {
      var tail := Records(ps[1..]) + "]" + rest;
      Regroup(Record(p.key, p.value), ",", Records(ps[1..]), "]" , rest);
      ReadOneRecord(p, "," + tail);
      RecordsStart(ps[1..]);
      ReadAllRecords(ps[1..], rest);
      ReadMoreRecords(t, p, tail, ps[1..], "]" + rest);
      assert ps == [p] + ps[1..];
    }
  }

  lemma RecordsStart(ps: seq<Pair>)
    requires ps != []
    ensures |Records(ps)| > 0 && Records(ps)[0] == '{'
  {
    assert Record(ps[0].key, ps[0].value)[0] == '{';
  }

  lemma ReadBackEnding(rs: seq<Pair>, next: Option<string>)
    ensures ReadEnding(rs, "]" + Ending(next)) == Some(Page(rs, next))
  {
    hide Escaped, ReadString, ReadAfter;
    var e := Ending(next);
    assert ("]" + e)[1..] == e;
    if next.Some? {
      assert e == ",\"next\":\"" + Escaped(next.value) + "\"" + "}" && e[0] == ',';
      ReadAfterEscaped(",\"next\":\"", next.value, "}");
    }
  }

  lemma ReadBackList(ps: seq<Pair>, rest: string)
    ensures ReadRecordList(Records(ps) + "]" + rest) == Some((ps, "]" + rest))
  {
    var t := Records(ps) + "]" + rest;
    if ps == [] {
      assert t == "]" + rest && t[0] == ']';
    } else {
      hide Records, ReadRecords;
      RecordsStart(ps);
      assert t[0] == '{';
      ReadAllRecords(ps, rest);
    }
  }

  /** The reference reader recovers exactly the page a `/scan` response was printed from. */
  lemma ReadScanBody(p: Page)
    ensures ReadScan(ScanBody(p)) == Some(p)
  {
    hide Escaped, Records, ReadRecordList, ReadEnding;
    var u := Records(p.records) + "]" + Ending(p.next);
    assert ScanBody(p) == "{\"records\":[" + u;
    assert ScanBody(p)[|"{\"records\":["|..] == u;
    ReadBackList(p.records, Ending(p.next));
    ReadBackEnding(p.records, p.next);
  }
}
