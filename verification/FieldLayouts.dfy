/**
 The extractor on other layouts than the service's own: any text around the parts of a
 field, and white space where JSON allows it.
 */
module FieldLayouts {
  import opened Text
  import opened Json
  import opened Fields

  // ---- a field anywhere ---------------------------------------------------

  predicate Lacks(s: string, c: char) { forall i :: 0 <= i < |s| ==> s[i] != c }

  /** Quoted text from any gap without quotes on. */
  lemma QuotedAfter(before: string, gap: string, s: string, post: string)
    requires Lacks(gap, '"')
    ensures var body := before + (gap + "\"") + Escaped(s) + ("\"" + post); var q := |before| + |gap| + 1;
      var e := q + |Escaped(s)|;
      && |body| == e + 1 + |post| && body[q..e] == Escaped(s)
      && (!EndsInBackslash(s) ==> Quoted(body, |before|) == Some(Span(q, e)))
      && (EndsInBackslash(s) ==> Quoted(body, |before|).None? || Quoted(body, |before|).value.end > e)
  {
    hide Escaped, EndsInBackslash, CloseQuote, Closes;
    var body := before + (gap + "\"") + Escaped(s) + ("\"" + post);
    var pre := before + (gap + "\"");
    FindCharIs(body, '"', |before|, |before| + |gap|);
    CloseAfterEscaped(pre, s, post);
    assert body[|pre|..|pre| + |Escaped(s)|] == Escaped(s);
  }

  /** A field name, a colon after it and quoted text after that, whatever stands around and between them. */
  function FieldText(pre: string, f: string, gap: string, pad: string, s: string, post: string): string {
    pre + ("\"" + f + "\"") + gap + ":" + (pad + "\"") + Escaped(s) + ("\"" + post)
  }

  lemma ColonOfText(pre: string, f: string, gap: string, pad: string, s: string, post: string, p: nat)
    requires Lacks(f, ':') && Lacks(gap, ':') && |pre| <= p <= |pre| + |f| + 2 + |gap|
    ensures FindChar(FieldText(pre, f, gap, pad, s, post), ':', p) == |pre| + |f| + 2 + |gap|
  {
    hide Escaped;
    var body := FieldText(pre, f, gap, pad, s, post);
    var c := |pre| + |f| + 2 + |gap|;
    assert body == pre + ("\"" + f + "\"" + gap) + (":" + (pad + "\"") + Escaped(s) + ("\"" + post));
    assert body[c] == ':';
    forall i | p <= i < c ensures body[i] != ':' {
      assert body[i] == ("\"" + f + "\"" + gap)[i - |pre|];
    }
    FindCharIs(body, ':', p, c);
  }

  /** The quoted text after the first occurrence of a field's name and the next colon is the field, exactly when it does not end in a backslash. */
  lemma FieldOfText(pre: string, f: string, gap: string, pad: string, s: string, post: string)
    requires Lacks(f, ':') && Lacks(gap, ':') && Lacks(pad, '"')
    requires Find(FieldText(pre, f, gap, pad, s, post), "\"" + f + "\"", 0) == |pre|
    ensures Field(FieldText(pre, f, gap, pad, s, post), f) == Escaped(s) <==> !EndsInBackslash(s)
  {
    ColonOfText(pre, f, gap, pad, s, post, |pre|);
    FieldAfterColon(pre, f, gap, pad, s, post, |pre|);
  }

  lemma FieldAfterColon(pre: string, f: string, gap: string, pad: string, s: string, post: string, p: nat)
    requires Lacks(pad, '"')
    requires var body := FieldText(pre, f, gap, pad, s, post);
      Find(body, "\"" + f + "\"", 0) == p && FindChar(body, ':', p) == |pre| + |f| + 2 + |gap|
    ensures Field(FieldText(pre, f, gap, pad, s, post), f) == Escaped(s) <==> !EndsInBackslash(s)
  {
    hide Escaped, EndsInBackslash, Quoted, Find, FindChar, Lacks;
    var body := FieldText(pre, f, gap, pad, s, post);
    var before := pre + ("\"" + f + "\"") + gap + ":";
    assert |before| == |pre| + |f| + 3 + |gap|;
    QuotedAfter(before, pad, s, post);
    EscapedEnd(s);
    NotEmptyText(s);
    var q := Quoted(body, |before|);
    if q.Some? && EndsInBackslash(s) { assert q.value.start == |before| + |pad| + 1 by { QuotedStart(body, |before|, pad, s, post, before); } }
  }

  lemma NotEmptyText(s: string)
    ensures EndsInBackslash(s) ==> s != ""
  {
  }

  lemma QuotedStart(body: string, from: nat, gap: string, s: string, post: string, before: string)
    requires Lacks(gap, '"') && from == |before| && body == before + (gap + "\"") + Escaped(s) + ("\"" + post)
    ensures Quoted(body, from).Some? ==> Quoted(body, from).value.start == from + |gap| + 1
  {
    hide Escaped;
    FindCharIs(body, '"', from, from + |gap|);
  }

  /** A field is empty that a text does not name, or names without a colon after it, or without quoted text after that. */
  lemma FieldMissing(body: string, f: string)
    requires var p := Find(body, "\"" + f + "\"", 0);
      || p == -1
      || (forall i :: p <= i < |body| ==> body[i] != ':')
      || (forall i :: FindChar(body, ':', p) < i < |body| ==> body[i] != '"')
    ensures Field(body, f) == ""
  {
    hide Find;
  }

  /** The batch scanner cuts a pair out of any layout in which no quote stands between its parts. */
  lemma PairOfText(pre: string, gap: string, k: string, mid: string, pad: string, v: string, post: string, pos: nat)
    requires Lacks(gap, '"') && Lacks(mid, '"') && Lacks(mid, 'v') && Lacks(pad, '"')
    requires !EndsInBackslash(k) && !EndsInBackslash(v)
    requires Find(PairText(pre, gap, k, mid, pad, v, post), "\"key\"", pos) == |pre|
    ensures var body := PairText(pre, gap, k, mid, pad, v, post);
      NextPair(body, pos) == Some(Hit(Pair(Escaped(k), Escaped(v)), |body| - |post|))
  {
    hide Escaped, EndsInBackslash, Quoted, Find;
    var body := PairText(pre, gap, k, mid, pad, v, post);
    var before := pre + "\"key\"";
    QuotedAfter(before, gap, k, mid + "\"value\"" + (pad + "\"") + Escaped(v) + ("\"" + post));
    var ke := |before| + |gap| + 1 + |Escaped(k)|;
    var head := before + (gap + "\"") + Escaped(k) + "\"" + mid;
    PairTextParts(pre, gap, k, mid, pad, v, post);
    FindValueAfter(head, mid, (pad + "\"") + Escaped(v) + ("\"" + post), ke);
    QuotedAfter(head + "\"value\"", pad, v, post);
  }

  function PairText(pre: string, gap: string, k: string, mid: string, pad: string, v: string, post: string): string {
    pre + "\"key\"" + (gap + "\"") + Escaped(k) + ("\"" + (mid + "\"value\"" + (pad + "\"") + Escaped(v) + ("\"" + post)))
  }

  lemma PairTextParts(pre: string, gap: string, k: string, mid: string, pad: string, v: string, post: string)
    ensures var head := pre + "\"key\"" + (gap + "\"") + Escaped(k) + "\"" + mid;
      && PairText(pre, gap, k, mid, pad, v, post) == head + "\"value\"" + ((pad + "\"") + Escaped(v) + ("\"" + post))
      && PairText(pre, gap, k, mid, pad, v, post) == (head + "\"value\"") + (pad + "\"") + Escaped(v) + ("\"" + post)
  {
    hide Escaped;
  }

  lemma FindValueAfter(head: string, mid: string, rest: string, ke: nat)
    requires Lacks(mid, '"') && Lacks(mid, 'v') && ke + 1 + |mid| == |head| && head[ke] == '"' && head[ke + 1..] == mid
    ensures Find(head + "\"value\"" + rest, "\"value\"", ke) == |head|
  {
    hide Find;
    var body := head + "\"value\"" + rest;
    assert body[|head|..|head| + 7] == "\"value\"";
    forall i: nat | ke < i < |head| ensures body[i] != '"' && body[i] != 'v' {
      assert body[i] == head[i] == head[ke + 1..][i - ke - 1];
    }
    forall i: nat | ke <= i < |head| ensures !At(body, "\"value\"", i) {
      NotAt(body, "\"value\"", i, if i == ke then 1 else 0);
    }
    FindIs(body, "\"value\"", ke, |head|);
  }

  // ---- a record with white space ------------------------------------------

  /** White space between the parts of a record. */
  datatype Gaps = Gaps(open: string, key: string, keyText: string, comma: string, value: string, colon: string, text: string, close: string)

  predicate White(g: Gaps) {
    && AllSpace(g.open) && AllSpace(g.key) && AllSpace(g.keyText) && AllSpace(g.comma)
    && AllSpace(g.value) && AllSpace(g.colon) && AllSpace(g.text) && AllSpace(g.close)
  }

  /** A record as a client prints it that puts white space where JSON allows it. */
  function Spaced(g: Gaps, k: string, v: string): string {
    FieldText("{" + g.open, "key", g.key, g.keyText, k, AfterKey(g, v))
  }

  /** What follows the quote that closes the key. */
  function AfterKey(g: Gaps, v: string): string {
    g.comma + "," + g.value + "\"value\"" + g.colon + ":" + (g.text + "\"") + Escaped(v) + ("\"" + (g.close + "}"))
  }

  /** What stands before the value's name. */
  function BeforeValue(g: Gaps, k: string): string {
    "{" + g.open + "\"key\"" + g.key + ":" + (g.keyText + "\"") + Escaped(k) + "\"" + g.comma + "," + g.value
  }

  lemma SpacedAsValue(g: Gaps, k: string, v: string)
    ensures Spaced(g, k, v) == FieldText(BeforeValue(g, k), "value", g.colon, g.text, v, g.close + "}")
  {
    hide Escaped;
    assert "\"" + "key" + "\"" == "\"key\"" && "\"" + "value" + "\"" == "\"value\"";
    var (x, y) := ("{" + g.open + "\"key\"" + g.key + ":" + (g.keyText + "\"") + Escaped(k), "\"value\"" + g.colon + ":" + (g.text + "\"") + Escaped(v) + ("\"" + (g.close + "}")));
    assert AfterKey(g, v) == g.comma + "," + g.value + y;
    assert Spaced(g, k, v) == x + ("\"" + AfterKey(g, v));
    assert BeforeValue(g, k) == x + "\"" + g.comma + "," + g.value;
    assert FieldText(BeforeValue(g, k), "value", g.colon, g.text, v, g.close + "}") == BeforeValue(g, k) + y;
    assert x + ("\"" + (g.comma + "," + g.value + y)) == x + "\"" + g.comma + "," + g.value + y;
  }

  lemma WhiteLacks(s: string, c: char)
    requires AllSpace(s) && !IsSpace(c)
    ensures Lacks(s, c)
  {
  }

  lemma KeyNameFirst(g: Gaps, k: string, v: string)
    requires White(g)
    ensures Find(Spaced(g, k, v), "\"key\"", 0) == 1 + |g.open|
  {
    hide Escaped, Find, AfterKey;
    var body := Spaced(g, k, v);
    var p := 1 + |g.open|;
    assert "\"" + "key" + "\"" == "\"key\"";
    assert body == ("{" + g.open) + "\"key\"" + (g.key + ":" + (g.keyText + "\"") + Escaped(k) + ("\"" + AfterKey(g, v)));
    assert body[p..p + 5] == "\"key\"";
    forall i: nat | i < p ensures !At(body, "\"key\"", i) {
      assert body[i] == ("{" + g.open)[i];
      NotAt(body, "\"key\"", i, 0);
    }
    FindIs(body, "\"key\"", 0, p);
  }

  /** The text `"value"` first occurs at the field name, or at a key that spells it up to its closing quote. */
  lemma ValueNameFirst(g: Gaps, k: string, v: string)
    requires White(g)
    ensures var p := Find(Spaced(g, k, v), "\"value\"", 0); var end := |BeforeValue(g, k)| - |g.comma| - 2 - |g.value|;
      p == |BeforeValue(g, k)| || p + 6 == end
  {
    hide Escaped, Find, AfterKey, Spaced, FieldText;
    var body := Spaced(g, k, v);
    var n := |BeforeValue(g, k)|;
    SpacedAsValue(g, k, v);
    ValueNameAt(BeforeValue(g, k), g.colon, g.text, v, g.close + "}", body);
    var p := Find(body, "\"value\"", 0);
    assert 0 <= p <= n;
    if p < n { EarlyValueName(g, k, v, p); }
  }

  lemma ValueNameAt(pre: string, gap: string, pad: string, v: string, post: string, body: string)
    requires body == FieldText(pre, "value", gap, pad, v, post)
    ensures At(body, "\"value\"", |pre|)
  {
    hide Escaped;
    assert "\"" + "value" + "\"" == "\"value\"";
    assert body == pre + "\"value\"" + (gap + ":" + (pad + "\"") + Escaped(v) + ("\"" + post));
  }

  lemma EarlyValueName(g: Gaps, k: string, v: string, p: nat)
    requires White(g) && At(Spaced(g, k, v), "\"value\"", p) && p < |BeforeValue(g, k)|
    ensures p + 6 == |BeforeValue(g, k)| - |g.comma| - 2 - |g.value|
  {
    hide Escaped, At, Closes, EndsInBackslash, Spaced, BeforeValue, AfterKey, White;
    var body := Spaced(g, k, v);
    var head := HeadOf(g);
    var start := |head| + 1;
    var end := start + |Escaped(k)|;
    SpacedParts(g, k, v, head);
    AtChar(body, "\"value\"", p, 0);
    AtChar(body, "\"value\"", p, 1);
    AtChar(body, "\"value\"", p, 5);
    AtChar(body, "\"value\"", p, 6);
    if p < start {
      QuotesOfHead(g, p, head);
      HeadPart(head, Escaped(k) + ("\"" + AfterKey(g, v)), p);
      if p == start - 1 { QuoteInKey(g, k, v, head, p + 6); }
    } else if p < end {
      QuoteInKey(g, k, v, head, p + 6);
    } else {
      QuoteAfterKey(g, k, v, p);
    }
  }

  lemma HeadPart(head: string, rest: string, p: nat)
    requires p <= |head|
    ensures var body := (head + "\"") + rest; body[p] == (head + "\"")[p] && (p < |head| ==> body[p + 1] == (head + "\"")[p + 1])
  {
  }

  /** Between the quote that closes the key and the one that opens the value's name nothing begins with a quote and a v. */
  lemma QuoteAfterKey(g: Gaps, k: string, v: string, p: nat)
    requires White(g) && |BeforeValue(g, k)| - |g.comma| - 2 - |g.value| <= p < |BeforeValue(g, k)|
    ensures !(Spaced(g, k, v)[p] == '"' && Spaced(g, k, v)[p + 1] == 'v')
  {
    hide Escaped, AfterKey, Spaced;
    var tail := "\"" + g.comma + "," + g.value + "\"";
    var end := |BeforeValue(g, k)| - |g.comma| - 2 - |g.value|;
    SpacedParts(g, k, v, HeadOf(g));
    WhiteLacks(g.comma, '"');
    WhiteLacks(g.value, '"');
    WhiteLacks(g.comma, 'v');
    hide White, AllSpace;
    var body := Spaced(g, k, v);
    assert body[p] == tail[p - end] && body[p + 1] == tail[p + 1 - end];
  }

  function HeadOf(g: Gaps): string { "{" + g.open + "\"key\"" + g.key + ":" + g.keyText }

  lemma SpacedParts(g: Gaps, k: string, v: string, head: string)
    requires head == HeadOf(g)
    ensures Spaced(g, k, v) == (head + "\"") + Escaped(k) + ("\"" + AfterKey(g, v))
    ensures Spaced(g, k, v) == (head + "\"") + (Escaped(k) + ("\"" + AfterKey(g, v)))
    ensures Spaced(g, k, v) == (head + "\"") + Escaped(k) + ("\"" + g.comma + "," + g.value + "\"") +
      ("value\"" + g.colon + ":" + (g.text + "\"") + Escaped(v) + ("\"" + (g.close + "}")))
    ensures |BeforeValue(g, k)| == |head| + 1 + |Escaped(k)| + 2 + |g.comma| + |g.value|
  {
    hide Escaped;
    assert "\"" + "key" + "\"" == "\"key\"" && "\"value\"" == "\"" + "value\"";
  }

  /** The quotes before the key are those of its name and its own. */
  lemma QuotesOfHead(g: Gaps, p: nat, head: string)
    requires White(g) && head == HeadOf(g) && p <= |head|
    ensures (head + "\"")[p] == '"' ==> p == |head| || (head + "\"")[p + 1] != 'v'
  {
    WhiteLacks(g.open, '"');
    WhiteLacks(g.key, '"');
    WhiteLacks(g.keyText, '"');
    WhiteLacks(g.key, 'v');
    hide White, AllSpace;
    var a := 1 + |g.open|;
    var tail := g.key + ":" + g.keyText;
    assert head == ("{" + g.open) + ("\"key\"" + tail);
    forall i | 0 <= i < a ensures head[i] != '"' {
      assert head[i] == ("{" + g.open)[i];
    }
    forall i | 0 <= i < |tail| ensures tail[i] != '"' && tail[0] != 'v' {
    }
    forall i | a <= i < |head| ensures head[i] == ("\"key\"" + tail)[i - a] {
    }
  }

  lemma QuoteInKey(g: Gaps, k: string, v: string, head: string, i: nat)
    requires White(g) && head == HeadOf(g)
    requires var body := Spaced(g, k, v); |head| + 1 < i < |body| && body[i] == '"' && body[i - 1] == 'e'
    requires i < |head| + 1 + |Escaped(k)| + 7
    ensures i == |head| + 1 + |Escaped(k)|
  {
    hide Escaped, EndsInBackslash, AfterKey, Spaced;
    var body := Spaced(g, k, v);
    var end := |head| + 1 + |Escaped(k)|;
    SpacedParts(g, k, v, head);
    var tail := "\"" + g.comma + "," + g.value + "\"";
    WhiteLacks(g.comma, '"');
    WhiteLacks(g.value, '"');
    WhiteLacks(g.value, 'e');
    hide White, AllSpace;
    forall j | 0 < j < |tail| ensures tail[j] != '"' || tail[j - 1] != 'e' {
    }
    var rest := "value\"" + g.colon + ":" + (g.text + "\"") + Escaped(v) + ("\"" + (g.close + "}"));
    forall j | 0 <= j < 5 ensures rest[j] != '"' {
    }
    assert body == (head + "\"" + Escaped(k)) + tail + rest;
    if i < end {
      QuoteInside(head + "\"", k, "\"" + AfterKey(g, v), i);
    } else if i > end {
      TailChars(head + "\"" + Escaped(k), tail, rest, i);
    }
  }

  lemma QuoteInside(pre: string, k: string, post: string, i: nat)
    requires |pre| < i < |pre| + |Escaped(k)| && (pre + Escaped(k) + post)[i] == '"'
    ensures (pre + Escaped(k) + post)[i - 1] == '\\'
  {
    hide Escaped;
    assert Escaped(k)[i - |pre|] == '"';
    EscapedQuote(k, i - |pre|);
  }

  lemma TailChars(x: string, tail: string, rest: string, i: nat)
    requires |x| < i < |x + tail + rest| && |tail| >= 1
    ensures var body := x + tail + rest;
      if i < |x| + |tail| then body[i] == tail[i - |x|] && body[i - 1] == tail[i - 1 - |x|] else body[i] == rest[i - |x| - |tail|]
  {
  }

  lemma ValueColon(g: Gaps, k: string, v: string, p: nat)
    requires White(g) && At(Spaced(g, k, v), "\"value\"", p)
    requires p == |BeforeValue(g, k)| || p + 6 == |BeforeValue(g, k)| - |g.comma| - 2 - |g.value|
    ensures FindChar(Spaced(g, k, v), ':', p) == |BeforeValue(g, k)| + 7 + |g.colon|
  {
    hide Escaped, At, Spaced, BeforeValue;
    var body := Spaced(g, k, v);
    SpacedParts(g, k, v, HeadOf(g));
    var n := |BeforeValue(g, k)|;
    var c := n + 7 + |g.colon|;
    var mid := "\"" + g.comma + "," + g.value + "\"value\"" + g.colon;
    var start := n - |g.comma| - 2 - |g.value|;
    var x, rest := MidParts(g, k, v, mid, start);
    WhiteLacks(g.comma, ':');
    WhiteLacks(g.value, ':');
    WhiteLacks(g.colon, ':');
    hide White, AllSpace;
    forall i | 0 <= i < |mid| ensures mid[i] != ':' {
    }
    forall i | p <= i < c ensures body[i] != ':' {
      if i < p + 7 {
        AtChar(body, "\"value\"", p, i - p);
      } else {
        assert body[i] == mid[i - start];
      }
    }
    FindCharIs(body, ':', p, c);
  }

  lemma MidParts(g: Gaps, k: string, v: string, mid: string, start: nat) returns (x: string, rest: string)
    requires mid == "\"" + g.comma + "," + g.value + "\"value\"" + g.colon
    requires start == |BeforeValue(g, k)| - |g.comma| - 2 - |g.value|
    ensures Spaced(g, k, v) == x + mid + rest && |x| == start && rest != "" && rest[0] == ':'
    ensures start + |mid| == |BeforeValue(g, k)| + 7 + |g.colon|
  {
    hide Escaped;
    x := HeadOf(g) + "\"" + Escaped(k);
    rest := ":" + (g.text + "\"") + Escaped(v) + ("\"" + (g.close + "}"));
    SpacedParts(g, k, v, HeadOf(g));
    hide Spaced, BeforeValue;
    assert mid == ("\"" + g.comma + "," + g.value + "\"") + ("value\"" + g.colon);
    assert ("value\"" + g.colon) + rest == "value\"" + g.colon + ":" + (g.text + "\"") + Escaped(v) + ("\"" + (g.close + "}"));
  }

  /** With white space anywhere between the parts of a record, the extractor works as without. */
  lemma SpacedExact(g: Gaps, k: string, v: string)
    requires White(g)
    ensures Field(Spaced(g, k, v), "key") == Escaped(k) <==> !EndsInBackslash(k)
    ensures Field(Spaced(g, k, v), "value") == Escaped(v) <==> !EndsInBackslash(v)
  {
    hide Escaped, EndsInBackslash, Find, FindChar, Field, AfterKey;
    WhiteLacks(g.key, ':');
    WhiteLacks(g.keyText, '"');
    WhiteLacks(g.colon, ':');
    WhiteLacks(g.text, '"');
    assert "\"" + "key" + "\"" == "\"key\"" && "\"" + "value" + "\"" == "\"value\"";
    KeyNameFirst(g, k, v);
    FieldOfText("{" + g.open, "key", g.key, g.keyText, k, AfterKey(g, v));
    hide Spaced;
    ValueNameFirst(g, k, v);
    SpacedAsValue(g, k, v);
    var p := Find(Spaced(g, k, v), "\"value\"", 0);
    ValueColon(g, k, v, p);
    FieldAfterColon(BeforeValue(g, k), "value", g.colon, g.text, v, g.close + "}", p);
  }
}
