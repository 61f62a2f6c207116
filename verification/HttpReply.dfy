/**
 The response text, and a client that reads status and body back out of it. The printer
 knows the names of three statuses and prints every other one as an internal error.
 */
module HttpReply {
  import opened Text
  import opened HttpRead
  import opened HttpRoundTrip

  // ---- printing -----------------------------------------------------------

  function Digits(code: int): (d: string)
    ensures |d| == 3
  {
    if code == 200 then "200" else if code == 403 then "403" else if code == 404 then "404" else "500"
  }

  function Phrase(code: int): string {
    if code == 200 then "OK"
    else if code == 403 then "Forbidden"
    else if code == 404 then "Not Found"
    else "Internal Server Error"
  }

  function FirstLine(code: int): string { "HTTP/1.1 " + Digits(code) + " " + Phrase(code) }

  const TYPE_LINE := "Content-Type: application/json"
  const CLOSE_LINE := "Connection: close"

  /** http_resp */
  function Response(code: int, body: string): string {
    FirstLine(code) + CRLF + TYPE_LINE + CRLF + LengthLine(body) + CRLF + CLOSE_LINE + BLANK_LINE + body
  }

  // ---- reading ------------------------------------------------------------

  /** The three digits after the protocol version. */
  function StatusOf(t: string): Option<nat> {
    if |t| >= 12 && AllDigits(t[9..12]) then Some(NatOf(t[9..12])) else None
  }

  /** The body, framed by the length header. */
  function BodyOf(t: string): Option<string> {
    var h := Find(t, BLANK_LINE, 0);
    var p := Find(t, LENGTH_NAME, 0);
    if h == -1 || p == -1 then None else
    var v := TrimRight(SkipBlank(LengthText(t, p)));
    if v == "" || !AllDigits(v) || h + 4 + NatOf(v) > |t| then None else Some(t[h + 4..h + 4 + NatOf(v)])
  }

  /** Every status has its own phrase on the first line, and any other than the three known ones that of an internal error. */
  lemma FirstLines(code: int)
    ensures FirstLine(200) == "HTTP/1.1 " + "200" + " " + "OK"
    ensures FirstLine(403) == "HTTP/1.1 " + "403" + " " + "Forbidden"
    ensures FirstLine(404) == "HTTP/1.1 " + "404" + " " + "Not Found"
    ensures code !in {200, 403, 404} ==> FirstLine(code) == "HTTP/1.1 " + "500" + " " + "Internal Server Error"
  {
  }

  // ---- what comes back ----------------------------------------------------

  lemma Cuts(code: int, body: string)
    ensures var (a, c, last) := (FirstLine(code), LengthLine(body), CLOSE_LINE + BLANK_LINE + body); var t := Response(code, body);
      && t == a + CRLF + (TYPE_LINE + CRLF + (c + CRLF + last))
      && t == (a + CRLF + TYPE_LINE + CRLF) + (c + CRLF + last)
  {
    hide FirstLine, LengthLine;
  }

  /** Neither a line break nor the first letter of a header name used here. */
  predicate Quiet(s: string) { NoReturn(s) && 'C' !in s }

  lemma QuietDigits(code: int)
    ensures Quiet(Digits(code))
  {
  }

  lemma QuietPhrase(code: int)
    ensures Quiet(Phrase(code))
  {
    assert Quiet("OK") && Quiet("Forbidden");
    assert Quiet("Not Found");
    QuietError();
  }

  lemma QuietError()
    ensures Quiet("Internal Server Error")
  {
  }

  lemma QuietFirstLine(code: int)
    ensures Quiet(FirstLine(code))
  {
    hide Digits, Phrase;
    QuietDigits(code);
    QuietPhrase(code);
    assert Quiet("HTTP/1.1 ");
  }

  lemma LinesHaveNoReturn(body: string)
    ensures NoReturn(TYPE_LINE) && NoReturn(LengthLine(body)) && NoReturn(CLOSE_LINE)
  {
    hide Decimal;
    var d := Decimal(|body|);
    assert forall i :: 0 <= i < |d| ==> IsDigit(d[i]);
    assert NoReturn(LENGTH_NAME);
    TypeLineIsOne();
  }

  lemma TypeLineIsOne()
    ensures NoReturn(TYPE_LINE)
  {
    assert NoReturn("Content-Type:") && NoReturn(" application/json");
    assert TYPE_LINE == "Content-Type:" + " application/json";
  }

  lemma BlankFound(code: int, body: string)
    ensures Find(Response(code, body), BLANK_LINE, 0) == |FirstLine(code)| + |LengthLine(body)| + 53
  {
    hide Find, NoReturn, FirstLine, Response;
    var (a, c, last) := (FirstLine(code), LengthLine(body), CLOSE_LINE + BLANK_LINE + body);
    Cuts(code, body);
    QuietFirstLine(code);
    LinesHaveNoReturn(body);
    BlankFirst(CLOSE_LINE, body);
    var rest := c + CRLF + last;
    assert last[0] == 'C' && rest[0] == 'C';
    BlankAfter(c, last);
    BlankAfter(TYPE_LINE, rest);
    BlankAfter(a, TYPE_LINE + CRLF + rest);
  }

  /** Before the length header a 'C' only begins the type header. */
  lemma NoOtherC(code: int, i: nat)
    requires i < |FirstLine(code)| + 34
    ensures var before := FirstLine(code) + CRLF + TYPE_LINE + CRLF;
      |before| == |FirstLine(code)| + 34 && if i == |FirstLine(code)| + 2 then before[i + 8] == 'T' else before[i] != 'C'
  {
    hide FirstLine;
    var a := FirstLine(code);
    var before := a + CRLF + TYPE_LINE + CRLF;
    QuietFirstLine(code);
    TypeLineC();
    if i < |a| {
      assert before[i] == a[i];
    } else if |a| + 2 <= i < |a| + 32 {
      assert before[i] == TYPE_LINE[i - |a| - 2];
    }
  }

  lemma TypeLineC()
    ensures forall k {:trigger TYPE_LINE[k]} :: 1 <= k < |TYPE_LINE| ==> TYPE_LINE[k] != 'C'
  {
    var (x, y) := ("ontent-Type:", " application/json");
    QuietTypeLine(x, y);
    assert TYPE_LINE == "C" + (x + y);
    hide Quiet;
  }

  lemma QuietTypeLine(x: string, y: string)
    requires x == "ontent-Type:" && y == " application/json"
    ensures forall k :: 0 <= k < |x + y| ==> (x + y)[k] != 'C'
  {
    assert Quiet(x) && Quiet(y);
  }

  lemma LengthFound(code: int, body: string)
    ensures Find(Response(code, body), LENGTH_NAME, 0) == |FirstLine(code)| + 34
  {
    hide Find, FirstLine, Decimal, Response;
    var t := Response(code, body);
    var before := FirstLine(code) + CRLF + TYPE_LINE + CRLF;
    var rest := LengthLine(body) + CRLF + (CLOSE_LINE + BLANK_LINE + body);
    Cuts(code, body);
    assert t == before + rest;
    var p := |before|;
    assert rest[..15] == LENGTH_NAME;
    assert t[p..p + 15] == rest[..15];
    forall i: nat | i < p ensures !At(t, LENGTH_NAME, i) {
      NoOtherC(code, i);
      NotAt(t, LENGTH_NAME, i, if i == |FirstLine(code)| + 2 then 8 else 0);
    }
    FindIs(t, LENGTH_NAME, 0, p);
  }

  lemma LengthTextIs(t: string, p: nat, c: string)
    requires |c| >= 15 && p + |c| <= |t| && t[p..p + |c|] == c && Find(t, CRLF, p) == p + |c|
    ensures LengthText(t, p) == c[15..]
  {
    assert t[p + 15..p + |c|] == c[15..];
  }

  lemma LengthOfLine(before: string, c: string, last: string)
    requires NoReturn(c) && |c| >= 15
    ensures LengthText(before + (c + CRLF + last), |before|) == c[15..]
  {
    hide Find, NoReturn, LengthText, At;
    FirstBreak(c, last);
    FindShift(before, c + CRLF + last, CRLF);
    MiddlePart(before, c, CRLF + last);
    assert c + CRLF + last == c + (CRLF + last);
    LengthTextIs(before + (c + CRLF + last), |before|, c);
  }

  lemma LengthRead(code: int, body: string)
    ensures LengthText(Response(code, body), |FirstLine(code)| + 34) == " " + Decimal(|body|)
  {
    hide FirstLine, Decimal, NoReturn, LengthText, Response, LengthLine;
    Cuts(code, body);
    LinesHaveNoReturn(body);
    LengthLineTail(body);
    LengthOfLine(FirstLine(code) + CRLF + TYPE_LINE + CRLF, LengthLine(body), CLOSE_LINE + BLANK_LINE + body);
  }

  lemma LengthLineTail(body: string)
    ensures |LengthLine(body)| >= 15 && LengthLine(body)[15..] == " " + Decimal(|body|)
  {
    hide Decimal;
  }

  lemma MiddlePart(before: string, c: string, after: string)
    ensures (before + (c + after))[|before|..|before| + |c|] == c
  {
  }

  lemma StatusDigits(code: int)
    ensures AllDigits(Digits(code))
    ensures NatOf(Digits(code)) == if code == 200 || code == 403 || code == 404 then code else 500
  {
    var d := Digits(code);
    assert d == [d[0], d[1], d[2]];
    ThreeDigits(d[0], d[1], d[2]);
  }

  lemma ThreeDigits(a: char, b: char, c: char)
    requires IsDigit(a) && IsDigit(b) && IsDigit(c)
    ensures AllDigits([a, b, c])
    ensures NatOf([a, b, c]) == 100 * (a as int - '0' as int) + 10 * (b as int - '0' as int) + (c as int - '0' as int)
  {
    assert [a, b, c][..2] == [a, b] && [a, b][..1] == [a] && [a][..0] == [];
    assert NatOf([a]) == a as int - '0' as int;
    assert NatOf([a, b]) == 10 * NatOf([a]) + (b as int - '0' as int);
  }

  lemma StatusPlace(code: int, body: string)
    ensures |Response(code, body)| >= 12 && Response(code, body)[9..12] == Digits(code)
  {
    hide Digits, Phrase, Decimal;
  }

  /**
   A client gets the body of every response back, whatever it holds; it gets the status
   back exactly when it is one of the three the printer names, or 500.
   */
  lemma ResponseBack(code: int, body: string)
    ensures BodyOf(Response(code, body)) == Some(body)
    ensures StatusOf(Response(code, body)) == Some(code) <==> code == 200 || code == 403 || code == 404 || code == 500
  {
    hide Find, Decimal, LengthText, NatOf, Digits, FirstLine, Response;
    BlankFound(code, body);
    LengthFound(code, body);
    LengthRead(code, body);
    TrimmedDigits(Decimal(|body|));
    NatOfDecimal(|body|);
    StatusDigits(code);
    StatusPlace(code, body);
    BodyPlace(code, body);
  }

  lemma BodyPlace(code: int, body: string)
    ensures var h := |FirstLine(code)| + |LengthLine(body)| + 53; var t := Response(code, body);
      |t| == h + 4 + |body| && t[h + 4..h + 4 + |body|] == body
  {
    hide FirstLine, LengthLine;
  }
}
