/**
 The service's hand-written JSON field extractor and batch scanner. Neither one
 unescapes: both cut the raw text between two quotes, taking a quote for a closing
 one exactly when the character before it is not a backslash.
 */
module Fields {
  import opened Text
  import opened Json

  // ---- closing quotes -----------------------------------------------------

  /** The scanners take the quote at e for the end of a string. */
  predicate Closes(body: string, e: int) {
    1 <= e < |body| && body[e] == '"' && body[e - 1] != '\\'
  }

  /** The first closing quote at or after `from`, or -1. */
  function CloseQuote(body: string, from: nat): (e: int)
    requires from >= 1
    ensures e == -1 ==> forall i :: from <= i ==> !Closes(body, i)
    ensures e != -1 ==> from <= e && Closes(body, e)
    ensures forall i :: from <= i < e ==> !Closes(body, i)
    decreases |body| - from
  {
    if from >= |body| then -1
    else if Closes(body, from) then from
    else CloseQuote(body, from + 1)
  }

  lemma CloseQuoteIs(body: string, from: nat, e: int)
    requires 1 <= from <= e && Closes(body, e)
    requires forall i :: from <= i < e ==> !Closes(body, i)
    ensures CloseQuote(body, from) == e
  {
    assert CloseQuote(body, from) != -1;
  }

  /** The loop both scanners run: next quote, again while a backslash precedes it. */
  method SeekCloseQuote(body: string, from: nat) returns (e: int)
    requires from >= 1
    ensures e == CloseQuote(body, from)
  {
    e := FindChar(body, '"', from);
    while e != -1 && body[e - 1] == '\\'
      invariant e != -1 ==> from <= e < |body| && body[e] == '"'
      invariant e == -1 ==> forall i :: from <= i ==> !Closes(body, i)
      invariant forall i :: from <= i < e ==> !Closes(body, i)
      decreases if e == -1 then 0 else |body| - e
    {
      e := FindChar(body, '"', e + 1);
    }
    if e != -1 { CloseQuoteIs(body, from, e); }
  }

  /** The text between two quotes: characters start..end of the body. */
  datatype Span = Span(start: nat, end: nat)

  /** The next quoted text at or after `from`. */
  function Quoted(body: string, from: nat): (r: Option<Span>)
    ensures r.Some? ==> from < r.value.start <= r.value.end < |body|
  {
    var q := FindChar(body, '"', from);
    if q == -1 then None else
    var e := CloseQuote(body, q + 1);
    if e == -1 then None else Some(Span(q + 1, e))
  }

  method SeekQuoted(body: string, from: nat) returns (r: Option<Span>)
    ensures r == Quoted(body, from)
  {
    var q := FindChar(body, '"', from);
    if q == -1 { return None; }
    var e := SeekCloseQuote(body, q + 1);
    if e == -1 { return None; }
    return Some(Span(q + 1, e));
  }

  // ---- the field extractor ------------------------------------------------

  /** Text of field f: after the first `"f"` and the next colon, the next quoted text. */
  function Field(body: string, f: string): string {
    var p := Find(body, "\"" + f + "\"", 0);
    if p == -1 then "" else
    var c := FindChar(body, ':', p);
    if c == -1 then "" else
    var q := Quoted(body, c + 1);
    if q.None? then "" else body[q.value.start..q.value.end]
  }

  method ExtractField(body: string, f: string) returns (r: string)
    ensures r == Field(body, f)
  {
    hide Find, FindChar, Quoted;
    var p := Find(body, "\"" + f + "\"", 0);
    if p == -1 { return ""; }
    p := FindChar(body, ':', p);
    if p == -1 { return ""; }
    var q := SeekQuoted(body, p + 1);
    if q.None? { return ""; }
    return body[q.value.start..q.value.end];
  }

  // ---- the batch scanner --------------------------------------------------

  datatype Hit = Hit(pair: Pair, next: nat)

  /** The next key and value the scanner cuts out at or after pos. It always moves forward. */
  function NextPair(body: string, pos: nat): (r: Option<Hit>)
    ensures r.Some? ==> pos < r.value.next <= |body|
  {
    var ko := Find(body, "\"key\"", pos);
    if ko == -1 then None else
    var k := Quoted(body, ko + 5);
    if k.None? then None else
    var vo := Find(body, "\"value\"", k.value.end);
    if vo == -1 then None else
    var v := Quoted(body, vo + 7);
    if v.None? then None
    else Some(Hit(Pair(body[k.value.start..k.value.end], body[v.value.start..v.value.end]), v.value.end + 1))
  }

  function ScanPairs(body: string, pos: nat): seq<Pair>
    decreases |body| - pos
  {
    var h := NextPair(body, pos);
    if h.None? then [] else [h.value.pair] + ScanPairs(body, h.value.next)
  }

  const MAX_PAIRS := 1000

  /** One round of the scan loop. */
  method SeekPair(body: string, pos: nat) returns (h: Option<Hit>)
    ensures h == NextPair(body, pos)
  {
    hide Find, Quoted;
    var ko := Find(body, "\"key\"", pos);
    if ko == -1 { return None; }
    var k := SeekQuoted(body, ko + 5);
    if k.None? { return None; }
    var vo := Find(body, "\"value\"", k.value.end);
    if vo == -1 { return None; }
    var v := SeekQuoted(body, vo + 7);
    if v.None? { return None; }
    return Some(Hit(Pair(body[k.value.start..k.value.end], body[v.value.start..v.value.end]), v.value.end + 1));
  }

  /** The scan loop: collects pairs until the text runs out or the cap is passed. */
  method ScanBatch(body: string) returns (batch: seq<Pair>, tooMany: bool)
    ensures tooMany == (|ScanPairs(body, 0)| > MAX_PAIRS)
    ensures !tooMany ==> batch == ScanPairs(body, 0)
  {
    hide NextPair;
    batch, tooMany := [], false;
    var pos := 0;
    while true
      invariant 0 <= pos <= |body|
      invariant batch + ScanPairs(body, pos) == ScanPairs(body, 0)
      invariant |batch| <= MAX_PAIRS
      decreases |body| - pos
    {
      var h := SeekPair(body, pos);
      if h.None? { break; }
      var rest := ScanPairs(body, h.value.next);
      assert batch + ([h.value.pair] + rest) == (batch + [h.value.pair]) + rest;
      batch := batch + [h.value.pair];
      if |batch| > MAX_PAIRS { return batch, true; }
      pos := h.value.next;
    }
  }

  // ---- escaped text and quotes --------------------------------------------

  predicate EndsInBackslash(s: string) { s != [] && s[|s| - 1] == '\\' }

  lemma EscapedCharQuote(c: char, i: nat)
    requires i < |EscapedChar(c)| && EscapedChar(c)[i] == '"'
    ensures i > 0 && EscapedChar(c)[i - 1] == '\\'
  {
    if c < ' ' { HexDigitsAreNotQuotes(c as int / 16, c as int % 16); }
  }

  lemma HexDigitsAreNotQuotes(a: nat, b: nat)
    requires a < 16 && b < 16
    ensures HEX[a] != '"' && HEX[b] != '"'
  {
  }

  /** Every quote inside escaped text has a backslash before it. */
  lemma {:induction false} EscapedQuote(s: string, i: nat)
    requires i < |Escaped(s)| && Escaped(s)[i] == '"'
    ensures i > 0 && Escaped(s)[i - 1] == '\\'
  {
    hide EscapedChar;
    var n := |EscapedChar(s[0])|;
    assert Escaped(s) == EscapedChar(s[0]) + Escaped(s[1..]);
    if i < n {
      EscapedCharQuote(s[0], i);
    } else {
      EscapedQuote(s[1..], i - n);
    }
  }

  lemma EscapedCharEnd(c: char)
    ensures EscapedChar(c) != [] && EndsInBackslash(EscapedChar(c)) == (c == '\\')
  {
  }

  lemma EndOfBoth(e: string, t: string)
    requires e != ""
    ensures EndsInBackslash(e + t) == if t == "" then EndsInBackslash(e) else EndsInBackslash(t)
  {
    if t == "" { assert e + t == e; }
  }

  /** Escaped text ends in a backslash exactly when the text does. */
  lemma {:induction false} EscapedEnd(s: string)
    ensures Escaped(s) == [] <==> s == []
    ensures EndsInBackslash(Escaped(s)) == EndsInBackslash(s)
  {
    if s != [] {
      hide EscapedChar, EndsInBackslash;
      EscapedCharEnd(s[0]);
      EscapedEnd(s[1..]);
      EndOfBoth(EscapedChar(s[0]), Escaped(s[1..]));
      EndOfBoth([s[0]], s[1..]);
      assert [s[0]] + s[1..] == s;
      BackslashAlone(s[0]);
    }
  }

  lemma BackslashAlone(c: char)
    ensures EndsInBackslash([c]) == (c == '\\')
  {
  }

  /** No closing quote lies inside escaped text that follows a quote. */
  lemma NoCloseInside(pre: string, s: string, post: string)
    requires pre != [] && pre[|pre| - 1] == '"'
    ensures forall i :: |pre| <= i < |pre| + |Escaped(s)| ==> !Closes(pre + Escaped(s) + post, i)
  {
    var body := pre + Escaped(s) + post;
    forall i | |pre| <= i < |pre| + |Escaped(s)| ensures !Closes(body, i) {
      if body[i] == '"' {
        EscapedQuote(s, i - |pre|);
      }
    }
  }

  lemma CloseAt(pre: string, s: string, post: string)
    requires pre != [] && pre[|pre| - 1] == '"'
    ensures Closes(pre + Escaped(s) + ("\"" + post), |pre| + |Escaped(s)|) == !EndsInBackslash(s)
  {
    hide Escaped;
    var t := Escaped(s);
    var body := pre + t + ("\"" + post);
    EscapedEnd(s);
    assert body[|pre| + |t|] == '"';
    assert body[|pre| + |t| - 1] == (pre + t)[|pre| + |t| - 1];
  }

  /** Positions that close nothing can be skipped. */
  lemma {:induction false} CloseSkip(body: string, from: nat, til: nat)
    requires 1 <= from <= til <= |body|
    requires forall i :: from <= i < til ==> !Closes(body, i)
    ensures CloseQuote(body, from) == CloseQuote(body, til)
    decreases til - from
  {
    if from < til { CloseSkip(body, from + 1, til); }
  }

  /** The quote after escaped text closes it exactly when the text does not end in a backslash. */
  lemma CloseAfterEscaped(pre: string, s: string, post: string)
    requires pre != [] && pre[|pre| - 1] == '"'
    ensures var body := pre + Escaped(s) + ("\"" + post); var e := |pre| + |Escaped(s)|;
      CloseQuote(body, |pre|) == if EndsInBackslash(s) then CloseQuote(body, e + 1) else e
  {
    hide Escaped, Closes, EndsInBackslash;
    var body := pre + Escaped(s) + ("\"" + post);
    var e := |pre| + |Escaped(s)|;
    NoCloseInside(pre, s, "\"" + post);
    CloseSkip(body, |pre|, e);
    CloseAt(pre, s, post);
    assert Closes(body, e) == !EndsInBackslash(s);
  }

  // ---- a record inside a body ---------------------------------------------

  const KEY_OPEN := "{\"key\":\""
  const VALUE_OPEN := ",\"value\":\""

  lemma Cuts(pre: string, a: string, k: string, q: string, b: string, v: string, e: string, post: string)
    ensures var body := pre + (a + k + (q + b) + v + (q + e)) + post;
      && body == (pre + a) + k + (q + (b + v + (q + e) + post))
      && body == (pre + a + k + q + b) + v + (q + (e + post))
  {
  }

  /** A record with text around it, split at the first character of its key and of its value. */
  lemma RecordSplit(pre: string, k: string, v: string, post: string)
    ensures var body := pre + Record(k, v) + post;
      && body == (pre + KEY_OPEN) + Escaped(k) + ("\"" + (VALUE_OPEN + Escaped(v) + "\"}" + post))
      && body == (pre + KEY_OPEN + Escaped(k) + "\"" + VALUE_OPEN) + Escaped(v) + ("\"" + ("}" + post))
  {
    hide Escaped;
    assert "\",\"value\":\"" == "\"" + VALUE_OPEN && "\"}" == "\"" + "}";
    Cuts(pre, KEY_OPEN, Escaped(k), "\"", VALUE_OPEN, Escaped(v), "}", post);
  }

  /** Where the punctuation of a record stands; ke and ve are the quotes that end key and value. */
  lemma RecordLayout(pre: string, k: string, v: string, post: string, body: string, ke: nat, ve: nat)
    requires body == pre + Record(k, v) + post
    requires ke == |pre| + 8 + |Escaped(k)| && ve == ke + 11 + |Escaped(v)|
    ensures |body| == ve + 2 + |post|
    ensures body[|pre|..|pre| + 8] == KEY_OPEN
    ensures body[|pre| + 8..ke] == Escaped(k)
    ensures body[ke] == '"' && body[ke + 1..ke + 11] == VALUE_OPEN
    ensures body[ke + 11..ve] == Escaped(v)
    ensures body[ve] == '"' && body[ve + 1] == '}'
  {
    hide Escaped;
    RecordSplit(pre, k, v, post);
  }

  lemma QuotedIs(body: string, from: nat, q: nat)
    requires q == from || (q == from + 1 && q < |body| && body[from] != '"')
    requires q < |body| && body[q] == '"'
    ensures var e := CloseQuote(body, q + 1);
      Quoted(body, from) == if e == -1 then None else Some(Span(q + 1, e))
  {
    assert FindChar(body, '"', from) == q;
  }

  lemma CloseNext(body: string, i: nat)
    requires 1 <= i < |body| - 1
    requires body[i] != '"' && body[i] != '\\' && body[i + 1] == '"'
    ensures CloseQuote(body, i) == i + 1
  {
  }

  lemma KeyClose(pre: string, k: string, v: string, post: string)
    ensures var body := pre + Record(k, v) + post; var ke := |pre| + 8 + |Escaped(k)|;
      CloseQuote(body, |pre| + 8) == if EndsInBackslash(k) then ke + 2 else ke
  {
    hide Escaped, EndsInBackslash, Record, CloseQuote, Closes;
    var body := pre + Record(k, v) + post;
    var ke := |pre| + 8 + |Escaped(k)|;
    RecordLayout(pre, k, v, post, body, ke, ke + 11 + |Escaped(v)|);
    assert body[ke + 1..ke + 11][0] == ',' && body[ke + 1..ke + 11][1] == '"';
    CloseNext(body, ke + 1);
    RecordSplit(pre, k, v, post);
    CloseAfterEscaped(pre + KEY_OPEN, k, VALUE_OPEN + Escaped(v) + "\"}" + post);
  }

  lemma ValueClose(pre: string, k: string, v: string, post: string)
    ensures var body := pre + Record(k, v) + post;
      var vs := |pre| + 19 + |Escaped(k)|; var ve := vs + |Escaped(v)|;
      CloseQuote(body, vs) == if EndsInBackslash(v) then CloseQuote(body, ve + 1) else ve
  {
    hide Escaped, EndsInBackslash, Record, CloseQuote, Closes;
    RecordSplit(pre, k, v, post);
    var before := pre + KEY_OPEN + Escaped(k) + "\"" + VALUE_OPEN;
    assert |before| == |pre| + 19 + |Escaped(k)|;
    CloseAfterEscaped(before, v, "}" + post);
  }

  /** The key text the scanners cut out of a record: too long when the key ends in a backslash. */
  lemma KeyQuoted(pre: string, k: string, v: string, post: string, from: nat)
    requires |pre| + 6 <= from <= |pre| + 7
    ensures var body := pre + Record(k, v) + post; var ke := |pre| + 8 + |Escaped(k)|;
      Quoted(body, from) == Some(Span(|pre| + 8, if EndsInBackslash(k) then ke + 2 else ke))
  {
    hide Escaped, EndsInBackslash, Record, CloseQuote, Closes, Quoted;
    var body := pre + Record(k, v) + post;
    var ke := |pre| + 8 + |Escaped(k)|;
    RecordLayout(pre, k, v, post, body, ke, ke + 11 + |Escaped(v)|);
    assert body[|pre|..|pre| + 8][6] == ':' && body[|pre|..|pre| + 8][7] == '"';
    KeyClose(pre, k, v, post);
    QuotedIs(body, from, |pre| + 7);
  }

  /** The value text the scanners cut out of a record, and where a value that ends in a backslash leaves them. */
  lemma ValueQuoted(pre: string, k: string, v: string, post: string, from: nat)
    requires |pre| + |Escaped(k)| + 17 <= from <= |pre| + |Escaped(k)| + 18
    ensures var body := pre + Record(k, v) + post;
      var vs := |pre| + 19 + |Escaped(k)|; var ve := vs + |Escaped(v)|;
      var e := if EndsInBackslash(v) then CloseQuote(body, ve + 1) else ve;
      Quoted(body, from) == if e == -1 then None else Some(Span(vs, e))
  {
    hide Escaped, EndsInBackslash, Record, CloseQuote, Closes, Quoted;
    var body := pre + Record(k, v) + post;
    var ke := |pre| + 8 + |Escaped(k)|;
    RecordLayout(pre, k, v, post, body, ke, ke + 11 + |Escaped(v)|);
    assert body[ke + 1..ke + 11][8] == ':' && body[ke + 1..ke + 11][9] == '"';
    ValueClose(pre, k, v, post);
    QuotedIs(body, from, ke + 10);
  }

  // ---- extracting the fields of a record ----------------------------------

  lemma RecordCharsIn(pre: string, k: string, v: string, post: string, body: string, ke: nat)
    requires body == pre + Record(k, v) + post && ke == |pre| + 8 + |Escaped(k)|
    ensures |body| == ke + 13 + |Escaped(v)| + |post|
    ensures forall i {:trigger body[i]} :: |pre| <= i < |pre| + 8 ==> body[i] == KEY_OPEN[i - |pre|]
    ensures body[ke] == '"' && body[ke + 1] == ',' && body[ke + 2] == '"' && body[ke + 3] == 'v'
    ensures body[ke + 4] == 'a' && body[ke + 5] == 'l' && body[ke + 6] == 'u' && body[ke + 7] == 'e'
    ensures body[ke + 8] == '"' && body[ke + 9] == ':' && body[ke + 10] == '"'
    ensures body[|pre| + 8..ke] == Escaped(k) && body[ke + 11..ke + 11 + |Escaped(v)|] == Escaped(v)
    ensures body[ke + 11 + |Escaped(v)|] == '"' && body[ke + 12 + |Escaped(v)|] == '}'
  {
    hide Escaped, Record;
    RecordLayout(pre, k, v, post, body, ke, ke + 11 + |Escaped(v)|);
    assert forall i {:trigger body[i]} :: |pre| <= i < |pre| + 8 ==> body[i] == body[|pre|..|pre| + 8][i - |pre|];
    assert forall i {:trigger body[i]} :: ke + 1 <= i < ke + 11 ==> body[i] == body[ke + 1..ke + 11][i - ke - 1];
  }

  /** The fixed characters of a record, one by one. */
  lemma RecordChars(k: string, v: string, body: string, ke: nat)
    requires body == Record(k, v) && ke == 8 + |Escaped(k)|
    ensures |body| == ke + 13 + |Escaped(v)|
    ensures body[0] == '{' && body[1] == '"' && body[2] == 'k' && body[3] == 'e'
    ensures body[4] == 'y' && body[5] == '"' && body[6] == ':' && body[7] == '"'
    ensures body[ke] == '"' && body[ke + 1] == ',' && body[ke + 2] == '"' && body[ke + 3] == 'v'
    ensures body[ke + 4] == 'a' && body[ke + 5] == 'l' && body[ke + 6] == 'u' && body[ke + 7] == 'e'
    ensures body[ke + 8] == '"' && body[ke + 9] == ':' && body[ke + 10] == '"'
    ensures body[8..ke] == Escaped(k)
    ensures body[ke + 11 + |Escaped(v)|] == '"' && body[ke + 12 + |Escaped(v)|] == '}'
  {
    hide Escaped, Record;
    assert "" + body + "" == body;
    RecordCharsIn("", k, v, "", body, ke);
  }

  lemma FindKeyName(k: string, v: string)
    ensures Find(Record(k, v), "\"key\"", 0) == 1 && FindChar(Record(k, v), ':', 1) == 6
  {
    hide Escaped, Record, Find, FindChar;
    var body := Record(k, v);
    RecordChars(k, v, body, 8 + |Escaped(k)|);
    assert body[1..6] == "\"key\"";
    FindIs(body, "\"key\"", 0, 1);
    FindCharIs(body, ':', 1, 6);
  }

  /** The quoted text that starts at the key of a record: the key, or two characters more. */
  lemma OwnKeyQuoted(k: string, v: string)
    ensures var body := Record(k, v); var ke := 8 + |Escaped(k)|;
      && ke + 2 <= |body| && body[8..ke] == Escaped(k) && body[8..ke + 2] == Escaped(k) + "\","
      && Quoted(body, 7) == Some(Span(8, if EndsInBackslash(k) then ke + 2 else ke))
  {
    hide Escaped, EndsInBackslash, Record, Quoted;
    var body := Record(k, v);
    var ke := 8 + |Escaped(k)|;
    RecordChars(k, v, body, ke);
    assert "" + body + "" == body;
    KeyQuoted("", k, v, "", 7);
    assert body[8..ke + 2] == body[8..ke] + [body[ke], body[ke + 1]];
  }

  /**
   The key of a printed record comes back escaped, whatever quotes, colons or field
   names it holds, unless it ends in a backslash: then the text runs on to the next quote.
   */
  lemma KeyOfRecord(k: string, v: string)
    ensures Field(Record(k, v), "key") == Escaped(k) + if EndsInBackslash(k) then "\"," else ""
  {
    hide Escaped, EndsInBackslash, Record, Quoted, Find, FindChar;
    assert "\"" + "key" + "\"" == "\"key\"";
    FindKeyName(k, v);
    OwnKeyQuoted(k, v);
  }

  lemma NoCloseInKey(k: string, v: string, i: nat)
    requires 8 <= i < 8 + |Escaped(k)|
    ensures !Closes(Record(k, v), i)
  {
    hide Escaped, Closes;
    RecordSplit("", k, v, "");
    assert "" + Record(k, v) + "" == Record(k, v) && "" + KEY_OPEN == KEY_OPEN;
    NoCloseInside(KEY_OPEN, k, "\"" + (VALUE_OPEN + Escaped(v) + "\"}" + ""));
  }

  /** The text `"value"` first occurs at the field name, or at a key that spells it up to its closing quote. */
  lemma ValueMatch(k: string, v: string, p: nat)
    requires At(Record(k, v), "\"value\"", p) && p < 10 + |Escaped(k)|
    ensures p + 6 == 8 + |Escaped(k)|
  {
    hide Escaped, Record, At;
    var body := Record(k, v);
    RecordChars(k, v, body, 8 + |Escaped(k)|);
    AtChar(body, "\"value\"", p, 0);
    AtChar(body, "\"value\"", p, 1);
    AtChar(body, "\"value\"", p, 5);
    AtChar(body, "\"value\"", p, 6);
    assert Closes(body, p + 6);
    if 8 <= p + 6 < 8 + |Escaped(k)| { NoCloseInKey(k, v, p + 6); }
  }

  lemma ColonAfterValueMatch(k: string, v: string, p: nat)
    requires At(Record(k, v), "\"value\"", p)
    requires p == 10 + |Escaped(k)| || p + 6 == 8 + |Escaped(k)|
    ensures FindChar(Record(k, v), ':', p) == 17 + |Escaped(k)|
  {
    hide Escaped, Record;
    var body := Record(k, v);
    var ke := 8 + |Escaped(k)|;
    RecordChars(k, v, body, ke);
    forall i | p <= i < ke + 9 ensures body[i] != ':' {
      if i < p + 7 { AtChar(body, "\"value\"", p, i - p); }
    }
    FindCharIs(body, ':', p, ke + 9);
  }

  lemma FindValueName(k: string, v: string)
    ensures var p := Find(Record(k, v), "\"value\"", 0);
      p >= 0 && FindChar(Record(k, v), ':', p) == 17 + |Escaped(k)|
  {
    hide Escaped, Record, Find, FindChar;
    var body := Record(k, v);
    var ke := 8 + |Escaped(k)|;
    RecordChars(k, v, body, ke);
    assert body[ke + 2..ke + 9] == "\"value\"";
    assert At(body, "\"value\"", ke + 2);
    var p := Find(body, "\"value\"", 0);
    if p < ke + 2 { ValueMatch(k, v, p); }
    ColonAfterValueMatch(k, v, p);
  }

  /** The quoted text that starts at the value of a record: the value, or nothing when no quote closes it. */
  lemma OwnValueQuoted(k: string, v: string)
    ensures var body := Record(k, v); var vs := 19 + |Escaped(k)|; var ve := vs + |Escaped(v)|;
      && |body| == ve + 2 && body[vs..ve] == Escaped(v)
      && Quoted(body, vs - 1) == if EndsInBackslash(v) then None else Some(Span(vs, ve))
  {
    hide Escaped, EndsInBackslash, Record, Quoted, CloseQuote, Closes;
    var body := Record(k, v);
    var vs := 19 + |Escaped(k)|;
    var ve := vs + |Escaped(v)|;
    assert "" + body + "" == body;
    RecordLayout("", k, v, "", body, vs - 11, ve);
    ValueQuoted("", k, v, "", vs - 1);
    NoCloseAfter(body, ve);
  }

  /**
   The value of a printed record comes back escaped, whatever the key and the value
   hold, unless the value ends in a backslash: then nothing comes back.
   */
  lemma ValueOfRecord(k: string, v: string)
    ensures Field(Record(k, v), "value") == if EndsInBackslash(v) then "" else Escaped(v)
  {
    hide Escaped, EndsInBackslash, Record, Quoted, Find, FindChar;
    assert "\"" + "value" + "\"" == "\"value\"";
    FindValueName(k, v);
    OwnValueQuoted(k, v);
  }

  lemma NoCloseAfter(body: string, ve: nat)
    requires |body| == ve + 2 && body[ve + 1] != '"'
    ensures CloseQuote(body, ve + 1) == -1
  {
  }

  /** The extractor undoes the record printer, up to escaping, exactly when the field does not end in a backslash. */
  lemma ExtractorExact(k: string, v: string)
    ensures Field(Record(k, v), "key") == Escaped(k) <==> !EndsInBackslash(k)
    ensures Field(Record(k, v), "value") == Escaped(v) <==> !EndsInBackslash(v)
  {
    KeyOfRecord(k, v);
    ValueOfRecord(k, v);
    EscapedEnd(v);
    if EndsInBackslash(k) {
      assert |Field(Record(k, v), "key")| == |Escaped(k)| + 2;
    }
  }

  // ---- scanning a batch ---------------------------------------------------

  /** The body of a `/batch-put` request carrying these pairs. */
  function BatchBody(ps: seq<Pair>): string {
    "{\"pairs\":[" + Records(ps) + "]}"
  }

  function EscapedPairs(ps: seq<Pair>): seq<Pair> {
    seq(|ps|, i requires 0 <= i < |ps| => Pair(Escaped(ps[i].key), Escaped(ps[i].value)))
  }

  /** No key and no value ends in a backslash. */
  predicate NoneEndsInBackslash(ps: seq<Pair>) {
    forall i :: 0 <= i < |ps| ==> !EndsInBackslash(ps[i].key) && !EndsInBackslash(ps[i].value)
  }

  /** The text between pos and the key name of a record starting at p holds no `"key"`. */
  predicate NoKeyNameBefore(body: string, pos: nat, p: nat) {
    forall i: nat :: pos <= i <= p ==> !At(body, "\"key\"", i)
  }

  lemma FindRecordKey(pre: string, k: string, v: string, post: string, pos: nat)
    requires pos <= |pre| && NoKeyNameBefore(pre + Record(k, v) + post, pos, |pre|)
    ensures Find(pre + Record(k, v) + post, "\"key\"", pos) == |pre| + 1
  {
    hide Escaped, Record, Find;
    var body := pre + Record(k, v) + post;
    RecordCharsIn(pre, k, v, post, body, |pre| + 8 + |Escaped(k)|);
    assert body[|pre| + 1..|pre| + 6] == "\"key\"";
    FindIs(body, "\"key\"", pos, |pre| + 1);
  }

  lemma PartOfPart(s: string, a: nat, b: nat, c: nat, d: nat)
    requires a <= b <= |s| && c <= d <= b - a
    ensures s[a..b][c..d] == s[a + c..a + d]
  {
    forall i | 0 <= i < d - c ensures s[a..b][c..d][i] == s[a + c..a + d][i] {
    }
  }

  lemma ValueNameAfter(body: string, ke: nat)
    requires ke + 11 <= |body| && body[ke + 1..ke + 11] == VALUE_OPEN
    ensures !At(body, "\"value\"", ke) && !At(body, "\"value\"", ke + 1) && At(body, "\"value\"", ke + 2)
  {
    assert body[ke + 1..ke + 11][0] == ',' && body[ke + 1..ke + 11][1..8] == "\"value\"";
    PartOfPart(body, ke + 1, ke + 11, 1, 8);
    NotAt(body, "\"value\"", ke, 1);
    NotAt(body, "\"value\"", ke + 1, 0);
  }

  lemma FindRecordValue(pre: string, k: string, v: string, post: string, from: nat)
    requires from == |pre| + 8 + |Escaped(k)| || from == |pre| + 10 + |Escaped(k)|
    ensures Find(pre + Record(k, v) + post, "\"value\"", from) == |pre| + 10 + |Escaped(k)|
  {
    hide Escaped, Record, Find, At;
    var body := pre + Record(k, v) + post;
    var ke := |pre| + 8 + |Escaped(k)|;
    RecordLayout(pre, k, v, post, body, ke, ke + 11 + |Escaped(v)|);
    ValueNameAfter(body, ke);
    FindIs(body, "\"value\"", from, ke + 2);
  }

  /** One record: cut out as its escaped pair, ending at its closing brace, exactly when neither string ends in a backslash. */
  lemma NextPairOfRecord(pre: string, k: string, v: string, post: string, pos: nat)
    requires pos <= |pre| && NoKeyNameBefore(pre + Record(k, v) + post, pos, |pre|)
    ensures var h := NextPair(pre + Record(k, v) + post, pos);
      if EndsInBackslash(k) || EndsInBackslash(v) then h.None? || h.value.pair != Pair(Escaped(k), Escaped(v))
      else h == Some(Hit(Pair(Escaped(k), Escaped(v)), |pre| + |Record(k, v)| - 1))
  {
    hide Escaped, EndsInBackslash, Record, Find, Quoted, CloseQuote, Closes, NoKeyNameBefore, At;
    var body := pre + Record(k, v) + post;
    var ke := |pre| + 8 + |Escaped(k)|;
    var ve := ke + 11 + |Escaped(v)|;
    RecordLayout(pre, k, v, post, body, ke, ve);
    FindRecordKey(pre, k, v, post, pos);
    KeyQuoted(pre, k, v, post, |pre| + 6);
    FindRecordValue(pre, k, v, post, if EndsInBackslash(k) then ke + 2 else ke);
    ValueQuoted(pre, k, v, post, ke + 9);
  }

  lemma BatchGap(body: string, p: nat)
    requires p + 3 <= |body| && body[p] == '}' && body[p + 1] == ',' && body[p + 2] == '{'
    ensures NoKeyNameBefore(body, p, p + 2)
  {
    forall i: nat | p <= i <= p + 2 ensures !At(body, "\"key\"", i) {
      NotAt(body, "\"key\"", i, 0);
    }
  }

  lemma NoMorePairs(body: string, pos: nat)
    requires pos + 3 == |body| && body[pos..] == "}]}"
    ensures ScanPairs(body, pos) == []
  {
    forall i: nat | pos <= i ensures !At(body, "\"key\"", i) {
      if i < |body| { assert body[i] == body[pos..][i - pos]; }
      NotAt(body, "\"key\"", i, 0);
    }
  }

  lemma EscapedPairsCons(ps: seq<Pair>)
    requires ps != []
    ensures EscapedPairs(ps) == [Pair(Escaped(ps[0].key), Escaped(ps[0].value))] + EscapedPairs(ps[1..])
    ensures NoneEndsInBackslash(ps) == (!EndsInBackslash(ps[0].key) && !EndsInBackslash(ps[0].value) && NoneEndsInBackslash(ps[1..]))
  {
    hide Escaped, EndsInBackslash;
    assert NoneEndsInBackslash(ps[1..]) && !EndsInBackslash(ps[0].key) && !EndsInBackslash(ps[0].value) ==> NoneEndsInBackslash(ps) by {
      assert forall i :: 0 < i < |ps| ==> ps[i] == ps[1..][i - 1];
    }
    assert forall i :: 0 <= i < |ps[1..]| ==> ps[1..][i] == ps[i + 1];
  }

  /** Scanning printed records from just before the first of them. */
  lemma {:induction false} ScanRecords(pre: string, ps: seq<Pair>, pos: nat)
    requires ps != [] && pos <= |pre|
    requires NoKeyNameBefore(pre + Records(ps) + "]}", pos, |pre|)
    ensures ScanPairs(pre + Records(ps) + "]}", pos) == EscapedPairs(ps) <==> NoneEndsInBackslash(ps)
    decreases |ps|
  {
    hide Escaped, EndsInBackslash, Record, NextPair, NoKeyNameBefore;
    var body := pre + Records(ps) + "]}";
    var (k, v) := (ps[0].key, ps[0].value);
    var post := if |ps| == 1 then "]}" else "," + Records(ps[1..]) + "]}";
    assert body == pre + Record(k, v) + post;
    NextPairOfRecord(pre, k, v, post, pos);
    EscapedPairsCons(ps);
    var h := NextPair(body, pos);
    if EndsInBackslash(k) || EndsInBackslash(v) {
      if h.Some? { assert ScanPairs(body, pos)[0] == h.value.pair; }
      assert EscapedPairs(ps)[0] == Pair(Escaped(k), Escaped(v));
    } else {
      var next := |pre| + |Record(k, v)| - 1;
      assert ScanPairs(body, pos) == [h.value.pair] + ScanPairs(body, next);
      assert ScanPairs(body, pos)[1..] == ScanPairs(body, next) && EscapedPairs(ps)[1..] == EscapedPairs(ps[1..]);
      RecordCharsIn(pre, k, v, post, body, |pre| + 8 + |Escaped(k)|);
      if |ps| == 1 {
        assert body[next..] == "}]}";
        NoMorePairs(body, next);
        assert EscapedPairs(ps[1..]) == [] && NoneEndsInBackslash(ps[1..]);
      } else {
        var pre' := pre + Record(k, v) + ",";
        assert body == pre' + Records(ps[1..]) + "]}";
        RecordsStart(ps[1..]);
        BatchGap(body, next);
        ScanRecords(pre', ps[1..], next);
      }
    }
  }

  /**
   The batch scanner extracts exactly the escaped pairs of a request, in order, even
   when they spell field names, if and only if none of the strings ends in a backslash.
   */
  lemma BatchExact(ps: seq<Pair>)
    ensures ScanPairs(BatchBody(ps), 0) == EscapedPairs(ps) <==> NoneEndsInBackslash(ps)
  {
    hide Escaped, EndsInBackslash, NextPair;
    var pre := "{\"pairs\":[";
    if ps == [] {
      assert BatchBody(ps) == "{\"pairs\":[]}";
      forall i: nat ensures !At(BatchBody(ps), "\"key\"", i) {
        NotAt(BatchBody(ps), "\"key\"", i, if i == 1 || i == 7 then 1 else 0);
      }
      NoKeyNoPair(BatchBody(ps));
    } else {
      var body := pre + Records(ps) + "]}";
      assert BatchBody(ps) == body;
      RecordsStart(ps);
      assert forall i {:trigger body[i]} :: 0 <= i < |pre| ==> body[i] == pre[i];
      assert body[|pre|] == '{';
      forall i: nat | 0 <= i <= |pre| ensures !At(body, "\"key\"", i) {
        NotAt(body, "\"key\"", i, if i == 1 || i == 7 then 1 else 0);
      }
      ScanRecords(pre, ps, 0);
    }
  }

  lemma NoKeyNoPair(body: string)
    requires forall i: nat :: !At(body, "\"key\"", i)
    ensures ScanPairs(body, 0) == []
  {
  }
}
