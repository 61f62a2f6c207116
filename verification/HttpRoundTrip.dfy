/**
 The whole way of a request: a client prints it, the network cuts it into chunks, the
 connection handler assembles and parses it.
 */
module HttpRoundTrip {
  import opened Text
  import opened HttpRead
  import opened HttpParse

  function RequestLine(r: Request): string { r.verb + " " + Target(r.path, r.query) + " HTTP/1.1" }

  function LengthLine(body: string): string { LENGTH_NAME + " " + Decimal(|body|) }

  function BearerLine(token: string): string { "Authorization:" + " Bearer " + token }

  function Head(r: Request): string {
    RequestLine(r) + CRLF + LengthLine(r.body) + CRLF + BearerLine(r.bearer)
  }

  /** A request as a client prints it: request line, two headers, blank line, body. */
  function Printed(r: Request): string { Head(r) + BLANK_LINE + r.body }

  /** What HTTP asks of the parts of a request; the body may hold anything. */
  predicate Printable(r: Request) { PrintableLine(r) && r.bearer != "" && NoSpace(r.bearer) }

  predicate PrintableLine(r: Request) {
    && r.verb != "" && NoSpace(r.verb)
    && r.path != "" && NoSpace(r.path) && (forall i :: 0 <= i < |r.path| ==> r.path[i] != '?')
    && NoSpace(r.query)
  }

  /** No header name is spelled in the request line, so the first one found is the header itself. */
  ghost predicate OwnHeadersFirst(r: Request) {
    forall i: nat :: !At(RequestLine(r), LENGTH_NAME, i) && !At(Lower(RequestLine(r)), AUTHORIZATION, i)
  }

  // ---- where the lines of a request end -----------------------------------

  predicate NoReturn(s: string) { forall i :: 0 <= i < |s| ==> s[i] != '\r' && s[i] != '\n' }

  lemma RequestLineIsLine(r: Request)
    requires PrintableLine(r)
    ensures NoReturn(RequestLine(r))
  {
    assert NoReturn(r.verb) && NoReturn(r.path) && NoReturn(r.query);
    var t := Target(r.path, r.query);
    assert NoReturn(t);
  }

  lemma LinesAreLines(r: Request)
    requires Printable(r)
    ensures NoReturn(RequestLine(r)) && NoReturn(LengthLine(r.body)) && NoReturn(BearerLine(r.bearer))
  {
    hide Decimal;
    var d := Decimal(|r.body|);
    assert forall i :: 0 <= i < |d| ==> IsDigit(d[i]);
    RequestLineIsLine(r);
    assert NoReturn(r.bearer);
  }

  /** Three lines that end a header block, with the body after it. */
  function Text3(a: string, b: string, c: string, body: string): string {
    a + CRLF + b + CRLF + c + BLANK_LINE + body
  }

  lemma FirstBreak(line: string, rest: string)
    requires NoReturn(line)
    ensures Find(line + CRLF + rest, CRLF, 0) == |line|
  {
    hide Find;
    var w := line + CRLF + rest;
    assert w[|line|..|line| + 2] == CRLF;
    forall i: nat | i < |line| ensures !At(w, CRLF, i) { NotAt(w, CRLF, i, 0); }
    FindIs(w, CRLF, 0, |line|);
  }

  lemma AtShift(before: string, part: string, pat: string, i: nat)
    ensures At(before + part, pat, |before| + i) == At(part, pat, i)
  {
    var (w, k) := (before + part, |before|);
    if i + |pat| <= |part| { assert w[k + i..k + i + |pat|] == part[i..i + |pat|]; }
  }

  /** Searching from the start of a part is searching the part. */
  lemma FindShift(before: string, part: string, pat: string)
    requires Find(part, pat, 0) >= 0
    ensures Find(before + part, pat, |before|) == |before| + Find(part, pat, 0)
  {
    hide Find, At;
    var (w, k) := (before + part, |before|);
    var r := Find(part, pat, 0);
    AtShift(before, part, pat, r);
    forall i: nat | k <= i < k + r ensures !At(w, pat, i) {
      AtShift(before, part, pat, i - k);
      assert !At(part, pat, i - k);
    }
    FindIs(w, pat, k, k + r);
  }

  /** A line that is not the last one does not hold the blank line. */
  lemma BlankAfter(line: string, rest: string)
    requires NoReturn(line) && rest != "" && rest[0] != '\r' && Find(rest, BLANK_LINE, 0) >= 0
    ensures Find(line + CRLF + rest, BLANK_LINE, 0) == |line| + 2 + Find(rest, BLANK_LINE, 0)
  {
    hide Find;
    var w := line + CRLF + rest;
    var r := Find(rest, BLANK_LINE, 0);
    assert (line + CRLF) + rest == w;
    FindShift(line + CRLF, rest, BLANK_LINE);
    forall i: nat | i < |line| + 2 ensures !At(w, BLANK_LINE, i) {
      NotAt(w, BLANK_LINE, i, if i == |line| then 2 else 0);
    }
    FindIs(w, BLANK_LINE, 0, |line| + 2 + r);
  }

  lemma BlankFirst(line: string, body: string)
    requires NoReturn(line)
    ensures Find(line + BLANK_LINE + body, BLANK_LINE, 0) == |line|
  {
    hide Find;
    var w := line + BLANK_LINE + body;
    assert w[|line|..|line| + 4] == BLANK_LINE;
    forall i: nat | i < |line| ensures !At(w, BLANK_LINE, i) { NotAt(w, BLANK_LINE, i, 0); }
    FindIs(w, BLANK_LINE, 0, |line|);
  }

  lemma Text3Cuts(a: string, b: string, c: string, body: string)
    ensures var w := Text3(a, b, c, body);
      && w == a + CRLF + (b + CRLF + (c + BLANK_LINE + body))
      && w == (a + CRLF) + (b + CRLF + (c + BLANK_LINE + body))
  {
  }

  /** Where the line breaks and the blank line of such a text are found. */
  lemma LineBreaks(a: string, b: string, c: string, body: string)
    requires NoReturn(a) && NoReturn(b) && NoReturn(c) && b != "" && c != ""
    ensures var w := Text3(a, b, c, body);
      && Find(w, CRLF, 0) == |a|
      && Find(w, BLANK_LINE, 0) == |a| + |b| + |c| + 4
      && Find(w, CRLF, |a| + 2) == |a| + 2 + |b|
  {
    hide Find, Text3;
    var last := c + BLANK_LINE + body;
    var rest := b + CRLF + last;
    Text3Cuts(a, b, c, body);
    FirstBreak(a, rest);
    FirstBreak(b, last);
    FindShift(a + CRLF, rest, CRLF);
    BlankFirst(c, body);
    assert last[0] == c[0] && rest[0] == b[0];
    BlankAfter(b, last);
    BlankAfter(a, rest);
  }

  /** The last header line runs to the end of the headers. */
  lemma LastLine(a: string, b: string, c: string)
    requires NoReturn(c)
    ensures Find(a + CRLF + b + CRLF + c, CRLF, |a| + |b| + 4) == -1
  {
    hide Find;
    var head := a + CRLF + b + CRLF + c;
    forall i: nat | |a| + |b| + 4 <= i ensures !At(head, CRLF, i) {
      if i < |head| { assert head[i] == c[i - (|a| + |b| + 4)]; }
      NotAt(head, CRLF, i, 0);
    }
  }

  // ---- where the headers are found ----------------------------------------

  /** A name without line breaks that the first line does not hold is not found before the second line. */
  lemma NotInFirstLine(a: string, rest: string, name: string, i: nat)
    requires NoReturn(name) && name != "" && i < |a| + 2
    requires !At(a, name, i)
    ensures !At(a + CRLF + rest, name, i)
  {
    var s := a + CRLF + rest;
    assert s[|a|] == '\r' && s[|a| + 1] == '\n';
    if i == |a| + 1 {
      NotAt(s, name, i, 0);
    } else if i + |name| > |a| {
      NotAt(s, name, i, |a| - i);
    } else {
      assert s[i..i + |name|] == a[i..i + |name|];
    }
  }

  lemma FindLength(r: Request)
    requires OwnHeadersFirst(r)
    ensures Find(Printed(r), LENGTH_NAME, 0) == |RequestLine(r)| + 2
  {
    hide Find, At, RequestLine, Decimal;
    var a := RequestLine(r);
    var rest := LengthLine(r.body) + CRLF + BearerLine(r.bearer) + BLANK_LINE + r.body;
    var w := Printed(r);
    assert w == a + CRLF + rest;
    forall i: nat | i < |a| + 2 ensures !At(w, LENGTH_NAME, i) {
      assert !At(a, LENGTH_NAME, i);
      NotInFirstLine(a, rest, LENGTH_NAME, i);
    }
    LengthNameAt(a, rest, w);
    FindIs(w, LENGTH_NAME, 0, |a| + 2);
  }

  lemma LengthNameAt(a: string, rest: string, w: string)
    requires w == a + CRLF + rest && LENGTH_NAME <= rest
    ensures At(w, LENGTH_NAME, |a| + 2)
  {
    assert w[|a| + 2..|a| + 2 + 15] == rest[..15] == LENGTH_NAME;
  }

  lemma LowerAppend(a: string, b: string)
    ensures Lower(a + b) == Lower(a) + Lower(b)
  {
  }

  lemma LowerHead(r: Request)
    ensures Lower(Head(r)) ==
      Lower(RequestLine(r)) + CRLF + (Lower(LengthLine(r.body)) + CRLF + Lower(BearerLine(r.bearer)))
  {
    hide RequestLine, LengthLine, BearerLine, Lower;
    var (a, b, c) := (RequestLine(r), LengthLine(r.body), BearerLine(r.bearer));
    assert Lower(CRLF) == CRLF;
    LowerAppend(a + CRLF + b + CRLF, c);
    LowerAppend(a + CRLF + b, CRLF);
    LowerAppend(a + CRLF, b);
    LowerAppend(a, CRLF);
  }

  lemma LengthLineHasNoA(body: string)
    ensures forall i :: 0 <= i < |LengthLine(body)| ==> Lower(LengthLine(body))[i] != 'a'
  {
    var d := Decimal(|body|);
    assert forall i :: 0 <= i < |d| ==> IsDigit(d[i]);
  }

  lemma FindBearer(r: Request)
    requires OwnHeadersFirst(r)
    ensures Find(Lower(Head(r)), AUTHORIZATION, 0) == |RequestLine(r)| + |LengthLine(r.body)| + 4
  {
    hide Find, At, RequestLine, LengthLine, Lower;
    var (a, b, c) := (Lower(RequestLine(r)), Lower(LengthLine(r.body)), Lower(BearerLine(r.bearer)));
    var s := Lower(Head(r));
    var p := |a| + |b| + 4;
    LowerHead(r);
    LengthLineHasNoA(r.body);
    forall i: nat | i < p ensures !At(s, AUTHORIZATION, i) {
      if i < |a| + 2 {
        assert !At(a, AUTHORIZATION, i);
        NotInFirstLine(a, b + CRLF + c, AUTHORIZATION, i);
      } else {
        NotAt(s, AUTHORIZATION, i, 0);
      }
    }
    LowerAppend("Authorization:", " Bearer " + r.bearer);
    assert BearerLine(r.bearer) == "Authorization:" + (" Bearer " + r.bearer);
    LowerName();
    assert s == a + CRLF + b + CRLF + c;
    NameAt(a + CRLF + b + CRLF, c, s);
    FindIs(s, AUTHORIZATION, 0, p);
  }

  lemma LowerName()
    ensures Lower("Authorization:") == AUTHORIZATION
  {
  }

  lemma NameAt(before: string, c: string, s: string)
    requires s == before + c && AUTHORIZATION <= c
    ensures At(s, AUTHORIZATION, |before|)
  {
    assert s[|before|..|before| + 14] == c[..14];
  }

  // ---- the length and the token -------------------------------------------

  lemma TrimmedDigits(d: string)
    requires d != "" && AllDigits(d)
    ensures TrimRight(SkipBlank(" " + d)) == d
  {
    assert (" " + d)[1..] == d;
  }

  lemma AnnouncesBody(r: Request)
    requires Printable(r) && OwnHeadersFirst(r) && |r.body| <= MAX_REQUEST
    ensures Announces(Printed(r), |Head(r)|, |r.body|)
  {
    hide Find, At, RequestLine, BearerLine, Decimal, Announces, OwnHeadersFirst, Printable;
    var (a, b, c) := (RequestLine(r), LengthLine(r.body), BearerLine(r.bearer));
    var w := Printed(r);
    var h := |Head(r)|;
    FindLength(r);
    LinesAreLines(r);
    LineLengths(r);
    assert w == Text3(a, b, c, r.body);
    LineBreaks(a, b, c, r.body);
    hide Text3;
    FindInPrefix(w, LENGTH_NAME, 0, h + 4);
    FindInPrefix(w, CRLF, |a| + 2, h + 4);
    var p := |a| + 2;
    var d := Decimal(|r.body|);
    assert w[..h + 4][p + 15..p + |b|] == " " + d;
    assert LengthText(w[..h + 4], p) == " " + d;
    TrimmedDigits(d);
    NatOfDecimal(|r.body|);
    OwnHeader(w, h, |r.body|);
  }

  lemma LineLengths(r: Request)
    ensures |LengthLine(r.body)| == 16 + |Decimal(|r.body|)| && |BearerLine(r.bearer)| == 22 + |r.bearer|
  {
  }

  // ---- the theorem ---------------------------------------------------------

  lemma PrintedLine(r: Request)
    ensures RequestLine(r) == Line("", r.verb, " ", Target(r.path, r.query), " HTTP/1.1")
  {
    var (v, t) := (r.verb, Target(r.path, r.query));
    assert "" + v == v;
    assert v + " " + t + " HTTP/1.1" == RequestLine(r);
  }

  lemma LineOfPrinted(r: Request)
    requires Printable(r)
    ensures var p := Parse(Printed(r)); p.Some? && p.value.verb == r.verb && p.value.path == r.path && p.value.query == r.query
  {
    hide Find, At, Decimal, Parse, LengthLine, BearerLine;
    var (a, b, c) := (RequestLine(r), LengthLine(r.body), BearerLine(r.bearer));
    LinesAreLines(r);
    NotEmptyLines(r);
    assert Printed(r) == Text3(a, b, c, r.body);
    LineBreaks(a, b, c, r.body);
    hide Text3;
    var rest := b + CRLF + c + BLANK_LINE + r.body;
    assert Printed(r) == a + CRLF + rest;
    PrintedLine(r);
    ParseRequestLine("", r.verb, " ", r.path, r.query, " HTTP/1.1", rest);
  }

  lemma NotEmptyLines(r: Request)
    ensures LengthLine(r.body) != "" && BearerLine(r.bearer) != ""
  {
  }

  lemma BodyOfPrinted(r: Request)
    requires Printable(r)
    ensures var p := Parse(Printed(r)); p.Some? && p.value.body == r.body && p.value.bearer == BearerOf(Head(r))
  {
    hide Find, At, Decimal, Parse, BearerOf, RequestLine, LengthLine, BearerLine;
    var (a, b, c) := (RequestLine(r), LengthLine(r.body), BearerLine(r.bearer));
    LinesAreLines(r);
    NotEmptyLines(r);
    assert Printed(r) == Text3(a, b, c, r.body);
    LineBreaks(a, b, c, r.body);
    ParseBody(Head(r), r.body);
  }

  lemma TokenOfHead(r: Request)
    requires Printable(r) && OwnHeadersFirst(r)
    ensures BearerOf(Head(r)) == r.bearer
  {
    hide Find, At, Decimal, BearerOf, Lower, TrimEnd, OwnHeadersFirst, RequestLine, LengthLine;
    var (a, b, c) := (RequestLine(r), LengthLine(r.body), BearerLine(r.bearer));
    LinesAreLines(r);
    LastLine(a, b, c);
    FindBearer(r);
    LowerName();
    TokenTrimmed(r.bearer);
    var before := a + CRLF + b + CRLF;
    PrintedBearer(r.bearer);
    assert Head(r) == before + c + "";
    BearerBack(before, "Authorization:", " ", "Bearer ", r.bearer, "", "");
  }

  lemma PrintedBearer(token: string)
    ensures BearerLine(token) == "Authorization:" + " " + ("Bearer " + (token + ""))
    ensures AllBlank(" ") && AllBlank("") && IsPrefix("Bearer ", token + "")
  {
    assert Lower("Bearer ") == "bearer ";
  }

  /** A printed request parses back to its parts, whatever its body holds. */
  lemma ParsePrinted(r: Request)
    requires Printable(r) && OwnHeadersFirst(r)
    ensures Parse(Printed(r)) == Some(r)
  {
    hide Parse, Printed, Printable, OwnHeadersFirst, BearerOf, Head;
    LineOfPrinted(r);
    BodyOfPrinted(r);
    TokenOfHead(r);
  }

  lemma TokenTrimmed(token: string)
    requires token != "" && NoSpace(token)
    ensures TrimEnd(token) == token
  {
  }

  /** The body never changes how the rest of a request is read. */
  lemma ParseIgnoresBody(head: string, body: string)
    requires Find(head + BLANK_LINE + body, BLANK_LINE, 0) == |head|
    ensures Parse(head + BLANK_LINE).Some?
    ensures Parse(head + BLANK_LINE + body) == Some(Parse(head + BLANK_LINE).value.(body := body))
  {
    hide Find, At, BearerOf, Word, SkipSpace, FindChar;
    var w := head + BLANK_LINE + body;
    var m := |head| + 4;
    assert w[..m] == head + BLANK_LINE;
    BreakInBlank(head, body);
    FindInPrefix(w, CRLF, 0, m);
    FindInPrefix(w, BLANK_LINE, 0, m);
    var nl := Find(w, CRLF, 0);
    assert w[..nl] == w[..m][..nl];
    assert w[..|head|] == head && w[..m][..|head|] == head && w[m..] == body;
  }

  lemma BreakInBlank(head: string, body: string)
    ensures 0 <= Find(head + BLANK_LINE + body, CRLF, 0) <= |head|
  {
    var w := head + BLANK_LINE + body;
    assert w[|head|..|head| + 2] == CRLF;
    assert At(w, CRLF, |head|);
  }

  /**
   For every header block that announces its body, whatever other headers it holds, and
   for every body and every split: the method, path, query and token the handler sees are
   those of the headers alone, and the body it sees is the body that was sent.
   */
  lemma AnySplitAnyHeaders(head: string, body: string, chunks: seq<string>)
    requires var w := head + BLANK_LINE + body;
      |w| <= MAX_REQUEST && Announces(w, |head|, |body|) && Splits(chunks, w)
    ensures Parse(head + BLANK_LINE).Some?
    ensures ReadAll(chunks).Assembled?
    ensures Parse(ReadAll(chunks).request) == Some(Parse(head + BLANK_LINE).value.(body := body))
  {
    hide Splits, ReadAll, Parse, Find, LengthIn;
    ChunkingIndependent(head + BLANK_LINE + body, |head|, |body|);
    ParseIgnoresBody(head, body);
  }

  /**
   Whatever the body holds and however the network cuts the request, the handler sees
   the method, path, query, bearer token and body the client sent.
   */
  lemma AnySplitParsesBack(r: Request, chunks: seq<string>)
    requires Printable(r) && OwnHeadersFirst(r) && |Printed(r)| <= MAX_REQUEST
    requires Splits(chunks, Printed(r))
    ensures ReadAll(chunks) == Assembled(Printed(r))
    ensures Parse(ReadAll(chunks).request) == Some(r)
  {
    hide Announces, Splits, ReadAll, Parse, Printable, OwnHeadersFirst, Head;
    AnnouncesBody(r);
    ChunkingIndependent(Printed(r), |Head(r)|, |r.body|);
    ParsePrinted(r);
  }

  // ---- any length text ----------------------------------------------------

  /** What a length text with blanks around it is taken for: a number of digits within the cap, or refused. */
  lemma LengthValueIs(p: string, v: string, q: string)
    requires AllBlank(p) && AllBlank(q) && Tight(v)
    ensures !AllDigits(v) || v == "" ==> LengthValue(p + v + q) == Malformed
    ensures AllDigits(v) && v != "" ==> LengthValue(p + v + q) == if NatOf(v) > MAX_REQUEST then TooBig else Known(NatOf(v))
  {
    hide NatOf;
    if v == "" {
      var none := "";
      assert AllBlank(p + q) && p + v + q == (p + q) + none;
      SkipsBlanks(p + q, none);
    } else {
      assert p + v + q == p + (v + q);
      SkipsBlanks(p, v + q);
      TrimsBlanks(v, q);
    }
  }

  /** A length header after the first line is read the same however much of the text has arrived. */
  lemma AnnouncedText(a: string, text: string, c: string, body: string, m: nat)
    requires NoReturn(a) && NoReturn(text) && NoReturn(c) && c != "" && forall i: nat :: !At(a, LENGTH_NAME, i)
    requires var w := Text3(a, LENGTH_NAME + text, c, body); |a| + |text| + |c| + 23 <= m <= |w|
    ensures LengthIn(Text3(a, LENGTH_NAME + text, c, body)[..m]) == LengthValue(text)
  {
    hide Find, At, LengthValue;
    var b := LENGTH_NAME + text;
    var w := Text3(a, b, c, body);
    NameIsLine(text);
    LineBreaks(a, b, c, body);
    FindName(a, text, c, body);
    LengthTextPlace(a, text, c, body);
    FindInPrefix(w, LENGTH_NAME, 0, m);
    FindInPrefix(w, CRLF, |a| + 2, m);
    assert w[..m][|a| + 17..|a| + 17 + |text|] == w[|a| + 17..|a| + 17 + |text|];
  }

  lemma NameIsLine(text: string)
    requires NoReturn(text)
    ensures NoReturn(LENGTH_NAME + text) && |LENGTH_NAME| == 15
  {
  }

  lemma LengthTextPlace(a: string, text: string, c: string, body: string)
    ensures var w := Text3(a, LENGTH_NAME + text, c, body); |w| >= |a| + 17 + |text| && w[|a| + 17..|a| + 17 + |text|] == text
  {
    assert Text3(a, LENGTH_NAME + text, c, body) == (a + CRLF + LENGTH_NAME) + text + (CRLF + c + BLANK_LINE + body);
  }

  lemma FindName(a: string, text: string, c: string, body: string)
    requires forall i: nat :: !At(a, LENGTH_NAME, i)
    requires NoReturn(a)
    ensures Find(Text3(a, LENGTH_NAME + text, c, body), LENGTH_NAME, 0) == |a| + 2
  {
    hide Find, At;
    var rest := LENGTH_NAME + text + CRLF + c + BLANK_LINE + body;
    var w := Text3(a, LENGTH_NAME + text, c, body);
    assert w == a + CRLF + rest && LENGTH_NAME <= rest;
    hide Text3;
    forall i: nat | i < |a| + 2 ensures !At(w, LENGTH_NAME, i) {
      assert !At(a, LENGTH_NAME, i);
      NotInFirstLine(a, rest, LENGTH_NAME, i);
    }
    LengthNameAt(a, rest, w);
    FindIs(w, LENGTH_NAME, 0, |a| + 2);
  }

  /** A request printed with any length text. */
  function PrintedWith(r: Request, text: string): string {
    Text3(RequestLine(r), LENGTH_NAME + text, BearerLine(r.bearer), r.body)
  }

  /**
   Every split of a request whose length text is no number is refused with 400, and with 413
   if the number is above the cap; with any other number not below its size it is assembled.
   */
  lemma AnyLengthText(r: Request, p: string, v: string, q: string, chunks: seq<string>)
    requires Printable(r) && OwnHeadersFirst(r) && AllBlank(p) && AllBlank(q) && Tight(v) && NoReturn(v)
    requires |PrintedWith(r, p + v + q)| <= MAX_REQUEST && Splits(chunks, PrintedWith(r, p + v + q))
    ensures !AllDigits(v) || v == "" ==> ReadAll(chunks) == BadLength
    ensures AllDigits(v) && v != "" && NatOf(v) > MAX_REQUEST ==> ReadAll(chunks) == TooLarge
    ensures AllDigits(v) && v != "" && |r.body| <= NatOf(v) <= MAX_REQUEST ==> ReadAll(chunks) == Assembled(PrintedWith(r, p + v + q))
  {
    hide Find, At, RequestLine, BearerLine, LengthValue, LengthIn, Splits, ReadAll, NatOf;
    var (a, text, c) := (RequestLine(r), p + v + q, BearerLine(r.bearer));
    var w := PrintedWith(r, text);
    var h := |a| + |text| + |c| + 19;
    LinesAreLines(r);
    NotEmptyLines(r);
    NameIsLine(text);
    LineBreaks(a, LENGTH_NAME + text, c, r.body);
    forall m: nat | h + 4 <= m <= |w| ensures LengthIn(w[..m]) == LengthValue(text) {
      AnnouncedText(a, text, c, r.body, m);
    }
    LengthValueIs(p, v, q);
    HeadersInside(w, h);
    assert |w| == h + 4 + |r.body|;
    var length := LengthValue(text);
    if length.Known? { ChunkingIndependent(w, h, length.n); } else { RefusedExactly(w, h, length); }
  }

  // ---- requests without a body --------------------------------------------

  /**
   A request without a length header, whatever other headers it has, comes back as its
   parts and an empty body however the network cuts it.
   */
  lemma AnySplitBare(r: Request, headers: string, chunks: seq<string>)
    requires PrintableLine(r) && r.body == ""
    requires var head := RequestLine(r) + CRLF + headers;
      && Find(head + BLANK_LINE, BLANK_LINE, 0) == |head| && NoLengthName(head) && |head| + 4 <= MAX_REQUEST
      && Splits(chunks, head + BLANK_LINE) && BearerOf(head) == r.bearer
    ensures ReadAll(chunks) == Assembled(RequestLine(r) + CRLF + headers + BLANK_LINE)
    ensures Parse(ReadAll(chunks).request) == Some(r)
  {
    hide Find, At, Splits, ReadAll, NoLengthName, BearerOf, Parse;
    var (a, head) := (RequestLine(r), RequestLine(r) + CRLF + headers);
    BareHeaders(head, chunks);
    RequestLineIsLine(r);
    FirstBreak(a, headers + BLANK_LINE);
    PrintedLine(r);
    assert head + BLANK_LINE == a + CRLF + (headers + BLANK_LINE) && head + BLANK_LINE + "" == head + BLANK_LINE;
    hide RequestLine, NoReturn;
    ParseRequestLine("", r.verb, " ", r.path, r.query, " HTTP/1.1", headers + BLANK_LINE);
    ParseBody(head, "");
  }

  /** Without an authorization header the token is empty. */
  lemma GetWithoutToken(r: Request, headers: string, chunks: seq<string>)
    requires PrintableLine(r) && r.body == "" && r.bearer == ""
    requires var head := RequestLine(r) + CRLF + headers;
      && Find(head + BLANK_LINE, BLANK_LINE, 0) == |head| && NoLengthName(head) && |head| + 4 <= MAX_REQUEST
      && Splits(chunks, head + BLANK_LINE) && forall i: nat :: !At(Lower(head), AUTHORIZATION, i)
    ensures ReadAll(chunks).Assembled? && Parse(ReadAll(chunks).request) == Some(r)
  {
    hide Find, At, Splits, ReadAll, NoLengthName, BearerOf, Parse, PrintableLine;
    NoBearer(RequestLine(r) + CRLF + headers);
    AnySplitBare(r, headers, chunks);
  }

  lemma FindBareBearer(r: Request)
    requires PrintableLine(r) && OwnHeadersFirst(r)
    ensures Find(Lower(RequestLine(r) + CRLF + BearerLine(r.bearer)), AUTHORIZATION, 0) == |RequestLine(r)| + 2
  {
    hide Find, At, RequestLine, Lower;
    var (a, c) := (Lower(RequestLine(r)), Lower(BearerLine(r.bearer)));
    RequestLineIsLine(r);
    assert Lower(CRLF) == CRLF;
    LowerAppend(RequestLine(r) + CRLF, BearerLine(r.bearer));
    LowerAppend(RequestLine(r), CRLF);
    var s := a + CRLF + c;
    forall i: nat | i < |a| + 2 ensures !At(s, AUTHORIZATION, i) {
      assert !At(a, AUTHORIZATION, i);
      NotInFirstLine(a, c, AUTHORIZATION, i);
    }
    LowerAppend("Authorization:", " Bearer " + r.bearer);
    assert BearerLine(r.bearer) == "Authorization:" + (" Bearer " + r.bearer);
    LowerName();
    NameAt(a + CRLF, c, s);
    FindIs(s, AUTHORIZATION, 0, |a| + 2);
  }

  lemma BareTokenOfHead(r: Request)
    requires Printable(r) && OwnHeadersFirst(r)
    ensures BearerOf(RequestLine(r) + CRLF + BearerLine(r.bearer)) == r.bearer
  {
    hide Find, At, BearerOf, Lower, TrimEnd, OwnHeadersFirst, RequestLine;
    var (a, c) := (RequestLine(r), BearerLine(r.bearer));
    LinesAreLines(r);
    FindBareBearer(r);
    LastBareLine(a, c);
    LowerName();
    TokenTrimmed(r.bearer);
    var before := a + CRLF;
    PrintedBearer(r.bearer);
    assert a + CRLF + c == before + c + "";
    BearerBack(before, "Authorization:", " ", "Bearer ", r.bearer, "", "");
  }

  lemma LastBareLine(a: string, c: string)
    requires NoReturn(c)
    ensures Find(a + CRLF + c, CRLF, |a| + 2) == -1
  {
    hide Find;
    var head := a + CRLF + c;
    forall i: nat | |a| + 2 <= i ensures !At(head, CRLF, i) {
      if i < |head| { assert head[i] == c[i - (|a| + 2)]; }
      NotAt(head, CRLF, i, 0);
    }
  }

  /** A request line and an authorization header, nothing else: as a client prints a GET. */
  lemma GetWithToken(r: Request, chunks: seq<string>)
    requires Printable(r) && OwnHeadersFirst(r) && r.body == ""
    requires var head := RequestLine(r) + CRLF + BearerLine(r.bearer);
      NoLengthName(head) && |head| + 4 <= MAX_REQUEST && Splits(chunks, head + BLANK_LINE)
    ensures ReadAll(chunks).Assembled? && Parse(ReadAll(chunks).request) == Some(r)
  {
    hide Find, At, Splits, ReadAll, NoLengthName, BearerOf, Parse, OwnHeadersFirst, RequestLine;
    var (a, c) := (RequestLine(r), BearerLine(r.bearer));
    LinesAreLines(r);
    NotEmptyLines(r);
    BlankFirst(c, "");
    var last := c + BLANK_LINE + "";
    assert last[0] == c[0] == 'A';
    BlankAfter(a, last);
    assert a + CRLF + last == a + CRLF + c + BLANK_LINE;
    BareTokenOfHead(r);
    AnySplitBare(r, c, chunks);
  }

  // ---- a body that spells a header ----------------------------------------

  predicate NoC(s: string) { 'C' !in s && 'c' !in s }

  lemma LowerCaseFinds(l1: string, l3: string, body: string)
    requires NoC(l1) && NoC(l3) && body == LENGTH_NAME
    ensures var w := Text3(l1, "content-length: 15", l3, body); var h := |l1| + |l3| + 22;
      |w| == h + 19 && Find(w, LENGTH_NAME, 0) == h + 4 && Find(w, LENGTH_NAME_LOWER, 0) == |l1| + 2
  {
    hide Find;
    var l2 := "content-length: 15";
    var w := Text3(l1, l2, l3, body);
    var h := |l1| + |l3| + 22;
    assert w[h + 4..h + 19] == body && w[|l1| + 2..|l1| + 17] == LENGTH_NAME_LOWER;
    forall i: nat | i < h + 4 ensures !At(w, LENGTH_NAME, i) {
      assert w[i] != 'C';
      NotAt(w, LENGTH_NAME, i, 0);
    }
    forall i: nat | i < |l1| + 2 ensures !At(w, LENGTH_NAME_LOWER, i) {
      assert w[i] != 'c';
      NotAt(w, LENGTH_NAME_LOWER, i, 0);
    }
    FindIs(w, LENGTH_NAME, 0, h + 4);
    FindIs(w, LENGTH_NAME_LOWER, 0, |l1| + 2);
  }

  /** With everything arrived the name in the body is taken, and nothing follows it. */
  lemma AllArrived(l1: string, l3: string, body: string)
    requires NoC(l1) && NoC(l3) && body == LENGTH_NAME
    ensures LengthIn(Text3(l1, "content-length: 15", l3, body)) == Malformed
  {
    hide Find, LengthValue;
    var w := Text3(l1, "content-length: 15", l3, body);
    LowerCaseFinds(l1, l3, body);
    assert w[|w| - 15..] == body;
    hide Text3;
    NoBreakAfter(w, |w| - 15);
    assert LengthText(w, |w| - 15) == "";
    Fifteen();
  }

  /** With only the headers arrived their own length is taken. */
  lemma HeadersArrived(l1: string, l3: string, body: string)
    requires NoC(l1) && NoC(l3) && NoReturn(l1) && NoReturn(l3) && l3 != "" && body == LENGTH_NAME
    ensures LengthIn(Text3(l1, "content-length: 15", l3, body)[..|l1| + |l3| + 26]) == Known(15)
  {
    hide Find, LengthValue;
    var l2 := "content-length: 15";
    var w := Text3(l1, l2, l3, body);
    var m := |l1| + |l3| + 26;
    LowerCaseFinds(l1, l3, body);
    LineBreaks(l1, l2, l3, body);
    assert w[|l1| + 17..|l1| + 20] == " 15";
    hide Text3;
    FindInPrefix(w, LENGTH_NAME, 0, m);
    FindInPrefix(w, LENGTH_NAME_LOWER, 0, m);
    FindInPrefix(w, CRLF, |l1| + 2, m);
    assert w[..m][|l1| + 17..|l1| + 20] == " 15";
    assert LengthText(w[..m], |l1| + 2) == " 15";
    Fifteen();
  }

  lemma NoBreakAfter(w: string, from: nat)
    requires from + 15 == |w| && w[from..] == LENGTH_NAME
    ensures Find(w, CRLF, from) == -1
  {
    forall i: nat | from <= i ensures !At(w, CRLF, i) {
      if i < |w| { assert w[i] == w[from..][i - from]; }
      NotAt(w, CRLF, i, 0);
    }
  }

  lemma Fifteen()
    ensures LengthValue(" 15") == Known(15) && LengthValue("") == Malformed
  {
    assert " 15"[1..] == "15";
    assert "15"[..1] == "1" && "1"[..0] == "";
    assert NatOf("15") == 15;
  }

  lemma LowerCaseSplits(l1: string, l3: string) returns (w: string, a: seq<string>, b: seq<string>)
    requires NoC(l1) && NoC(l3) && NoReturn(l1) && NoReturn(l3) && l3 != "" && |l1| + |l3| < 1000
    ensures Splits(a, w) && ReadAll(a) == Assembled(w)
    ensures Splits(b, w) && ReadAll(b) == BadLength
  {
    hide Find, LengthIn, Text3, Splits, ReadAll, NoC, NoReturn;
    var l2 := "content-length: 15";
    w := Text3(l1, l2, l3, LENGTH_NAME);
    LineTwo();
    LineBreaks(l1, l2, l3, LENGTH_NAME);
    LowerCaseFinds(l1, l3, LENGTH_NAME);
    AllArrived(l1, l3, LENGTH_NAME);
    HeadersArrived(l1, l3, LENGTH_NAME);
    var h := |l1| + |l2| + |l3| + 4;
    assert w[..|w|] == w;
    a := SplitAt(w, h, h + 4);
    b := SplitAt(w, h, |w|);
  }

  lemma LineTwo()
    ensures NoReturn("content-length: 15")
  {
  }

  /**
   A request whose lower-case length header is right, and which is read whole when the
   headers arrive first, but refused when it arrives at once: its body spells the name.
   */
  lemma LowerCaseMisread() returns (w: string, a: seq<string>, b: seq<string>)
    ensures Splits(a, w) && ReadAll(a) == Assembled(w)
    ensures Splits(b, w) && ReadAll(b) == BadLength
  {
    hide Splits, ReadAll;
    w, a, b := LowerCaseSplits("PUT /put", "host: x");
  }
}
