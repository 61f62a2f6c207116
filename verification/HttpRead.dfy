/**
 How the service reads one HTTP request from a socket and takes it apart. A connection
 is the sequence of chunks `recv` hands over; the end of the sequence is `recv`
 returning nothing.
 */
module HttpRead {
  import opened Text

  const MAX_REQUEST := 64 * 1024 * 1024
  const CHUNK := 4096
  const CRLF := "\r\n"
  const BLANK_LINE := "\r\n\r\n"
  const LENGTH_NAME := "Content-Length:"
  const LENGTH_NAME_LOWER := "content-length:"

  datatype Outcome = TooLarge | BadLength | Assembled(request: string)

  // ---- the Content-Length header ------------------------------------------

  function TrimRight(s: string): string {
    if s != "" && IsBlank(s[|s| - 1]) then TrimRight(s[..|s| - 1]) else s
  }

  datatype Length = Known(n: nat) | Malformed | TooBig

  /** Where the length header is taken to be: the usual spelling first, then all lower case. */
  function LengthAt(req: string): int {
    var p := Find(req, LENGTH_NAME, 0);
    if p == -1 then Find(req, LENGTH_NAME_LOWER, 0) else p
  }

  function LengthValue(text: string): Length {
    var v := TrimRight(SkipBlank(text));
    if v == "" || !AllDigits(v) then Malformed
    else if NatOf(v) > MAX_REQUEST then TooBig
    else Known(NatOf(v))
  }

  /** From after the header name at p to the end of its line. */
  function LengthText(req: string, p: nat): string {
    var e := Find(req, CRLF, p);
    var stop := if e == -1 then |req| else e;
    if p + 15 <= stop then req[p + 15..stop] else ""
  }

  /** The body length announced in the text received so far. */
  function LengthIn(req: string): Length {
    var p := LengthAt(req);
    if p == -1 then Known(0) else LengthValue(LengthText(req, p))
  }

  // ---- blanks around a value ----------------------------------------------

  predicate AllBlank(s: string) { forall i :: 0 <= i < |s| ==> IsBlank(s[i]) }

  /** Text that blanks around it can be told from. */
  predicate Tight(v: string) { v != "" ==> !IsBlank(v[0]) && !IsBlank(v[|v| - 1]) }

  lemma {:induction false} SkipsBlanks(p: string, t: string)
    requires AllBlank(p) && (t != "" ==> !IsBlank(t[0]))
    ensures SkipBlank(p + t) == t
  {
    if p == "" {
      assert p + t == t;
    } else {
      assert (p + t)[1..] == p[1..] + t;
      SkipsBlanks(p[1..], t);
    }
  }

  lemma {:induction false} TrimsBlanks(t: string, q: string)
    requires AllBlank(q) && (t != "" ==> !IsBlank(t[|t| - 1]))
    ensures TrimRight(t + q) == t
  {
    if q == "" {
      assert t + q == t;
    } else {
      assert (t + q)[..|t + q| - 1] == t + q[..|q| - 1];
      TrimsBlanks(t, q[..|q| - 1]);
    }
  }

  // ---- the read loop ------------------------------------------------------

  /** The text so far, and how much is needed in all once the headers are complete. */
  datatype State = State(text: string, total: Option<nat>)

  datatype Step = More(state: State) | Done(outcome: Outcome)

  /** What one chunk does: it is appended, and the whole text looked at. */
  function Receive(st: State, chunk: string): Step { LookAt(st.text + chunk, st.total) }

  function LookAt(text: string, total: Option<nat>): Step {
    if |text| > MAX_REQUEST then Done(TooLarge)
    else if total.Some? then
      if |text| >= total.value then Done(Assembled(text)) else More(State(text, total))
    else
      var h := Find(text, BLANK_LINE, 0);
      if h == -1 then More(State(text, None)) else
      match LengthIn(text)
      case Malformed => Done(BadLength)
      case TooBig => Done(TooLarge)
      case Known(n) =>
        if |text| >= h + 4 + n then Done(Assembled(text)) else More(State(text, Some(h + 4 + n)))
  }

  function ReadFrom(st: State, chunks: seq<string>): Outcome
    decreases |chunks|
  {
    if chunks == [] then Assembled(st.text) else
    match Receive(st, chunks[0])
    case Done(o) => o
    case More(next) => ReadFrom(next, chunks[1..])
  }

  const START := State("", None)

  function ReadAll(chunks: seq<string>): Outcome { ReadFrom(START, chunks) }

  /** The loop over recv; the buffer never grows past the cap by more than one chunk. */
  method ReadRequest(chunks: seq<string>) returns (o: Outcome, buffer: string)
    requires forall c :: c in chunks ==> 0 < |c| <= CHUNK
    ensures o == ReadAll(chunks)
    ensures |buffer| <= MAX_REQUEST + CHUNK
    ensures o.Assembled? ==> o.request == buffer
  {
    hide Find, LengthIn;
    buffer := "";
    var contentLength, headersEnd := -1, -1;
    ghost var total: Option<nat> := None;
    var i := 0;
    assert chunks[0..] == chunks;
    while i < |chunks|
      invariant 0 <= i <= |chunks|
      invariant |buffer| <= MAX_REQUEST
      invariant headersEnd >= -1 && (headersEnd == -1) == total.None?
      invariant total.Some? ==> contentLength >= 0 && total.value == headersEnd + 4 + contentLength
      invariant ReadFrom(State(buffer, total), chunks[i..]) == ReadAll(chunks)
    {
      assert chunks[i] in chunks;
      assert chunks[i..][1..] == chunks[i + 1..];
      buffer := buffer + chunks[i];
      if |buffer| > MAX_REQUEST { return TooLarge, buffer; }
      if headersEnd == -1 {
        headersEnd := Find(buffer, BLANK_LINE, 0);
        if headersEnd == -1 { i := i + 1; continue; }
        var length := LengthIn(buffer);
        if length.Malformed? { return BadLength, buffer; }
        if length.TooBig? { return TooLarge, buffer; }
        contentLength := length.n;
        total := Some(headersEnd + 4 + contentLength);
      }
      var bodyReceived := |buffer| - (headersEnd + 4);
      if bodyReceived >= contentLength { return Assembled(buffer), buffer; }
      i := i + 1;
    }
    return Assembled(buffer), buffer;
  }

  // ---- chunking -----------------------------------------------------------

  function Joined(chunks: seq<string>): string {
    if chunks == [] then "" else chunks[0] + Joined(chunks[1..])
  }

  /** One way recv can hand over the bytes of w. */
  ghost predicate Splits(chunks: seq<string>, w: string) {
    Joined(chunks) == w && forall i :: 0 <= i < |chunks| ==> 0 < |chunks[i]| <= CHUNK
  }

  /**
   The headers of w end at h and announce n body bytes, however much of w has arrived
   by the time the header block is complete.
   */
  ghost predicate Announces(w: string, h: nat, n: nat) {
    && Find(w, BLANK_LINE, 0) == h
    && forall m :: h + 4 <= m <= |w| ==> LengthIn(w[..m]) == Known(n)
  }

  lemma FindInPrefix(w: string, pat: string, from: nat, m: nat)
    requires m <= |w|
    ensures Find(w[..m], pat, from) == if Find(w, pat, from) + |pat| <= m then Find(w, pat, from) else -1
  {
    var r := Find(w, pat, from);
    var q := Find(w[..m], pat, from);
    forall i: nat | i + |pat| <= m ensures At(w[..m], pat, i) == At(w, pat, i) {
      assert w[..m][i..i + |pat|] == w[i..i + |pat|];
    }
    assert q != -1 ==> At(w, pat, q);
    if r != -1 && r + |pat| <= m { FindIs(w[..m], pat, from, r); }
  }

  // ---- reading on from a given point --------------------------------------

  /** Where the first m bytes of w lead, when some of them complete the headers. */
  function AfterHeaders(w: string, h: nat, m: nat): Step
    requires m <= |w|
  {
    match LengthIn(w[..m])
    case Malformed => Done(BadLength)
    case TooBig => Done(TooLarge)
    case Known(n) => AfterLength(w, h + 4 + n, m)
  }

  /** And once the length is known. */
  function AfterLength(w: string, total: nat, m: nat): Step
    requires m <= |w|
  {
    if m >= total then Done(Assembled(w[..m])) else More(State(w[..m], Some(total)))
  }

  lemma HeadersSeen(w: string, h: nat, m: nat)
    requires Find(w, BLANK_LINE, 0) == h && m <= |w|
    ensures Find(w[..m], BLANK_LINE, 0) == if m < h + 4 then -1 else h
  {
    hide Find, At;
    FindInPrefix(w, BLANK_LINE, 0, m);
  }

  lemma LookAtHeaders(w: string, h: nat, m: nat)
    requires m <= |w| && m <= MAX_REQUEST && Find(w[..m], BLANK_LINE, 0) == if m < h + 4 then -1 else h
    ensures LookAt(w[..m], None) == if m < h + 4 then More(State(w[..m], None)) else AfterHeaders(w, h, m)
  {
    hide LengthIn, Find, At;
  }

  /** What one chunk does while the headers are incomplete. */
  lemma ReceiveEarly(w: string, h: nat, got: nat, m: nat)
    requires Find(w, BLANK_LINE, 0) == h && got < h + 4 && got <= m <= |w| && m <= MAX_REQUEST
    ensures Receive(State(w[..got], None), w[got..m]) ==
      if m < h + 4 then More(State(w[..m], None)) else AfterHeaders(w, h, m)
  {
    hide LengthIn, Find, At, LookAt;
    HeadersSeen(w, h, m);
    assert w[..got] + w[got..m] == w[..m];
    LookAtHeaders(w, h, m);
  }

  /** What one chunk does once the length is known. */
  lemma ReceiveLate(w: string, total: nat, got: nat, m: nat)
    requires got <= m <= |w| && m <= MAX_REQUEST
    ensures Receive(State(w[..got], Some(total)), w[got..m]) == AfterLength(w, total, m)
  {
    hide LengthIn, Find;
    assert w[..got] + w[got..m] == w[..m];
  }

  lemma SplitsRest(w: string, got: nat, chunks: seq<string>)
    requires got <= |w| && Splits(chunks, w[got..]) && chunks != []
    ensures var m := got + |chunks[0]|; got < m <= |w| && m <= got + CHUNK && w[got..m] == chunks[0] && Splits(chunks[1..], w[m..])
  {
    var c := chunks[0];
    assert Joined(chunks) == c + Joined(chunks[1..]) == w[got..];
    var m := got + |c|;
    assert w[got..m] == w[got..][..|c|] == c;
    assert Joined(chunks[1..]) == w[got..][|c|..] == w[m..];
    assert forall i :: 0 <= i < |chunks[1..]| ==> chunks[1..][i] == chunks[i + 1];
  }

  lemma {:induction false} ReadLate(w: string, total: nat, got: nat, chunks: seq<string>)
    requires |w| <= MAX_REQUEST && |w| <= total && got <= |w| && got < total && Splits(chunks, w[got..])
    ensures ReadFrom(State(w[..got], Some(total)), chunks) == Assembled(w)
    decreases |chunks|
  {
    hide Receive, Splits;
    if chunks == [] {
      SplitsNothing(w, got);
    } else {
      SplitsRest(w, got, chunks);
      var m := got + |chunks[0]|;
      ReceiveLate(w, total, got, m);
      if m < total { ReadLate(w, total, m, chunks[1..]); } else { assert w[..m] == w; }
    }
  }

  lemma SplitsNothing(w: string, got: nat)
    requires got <= |w| && Splits([], w[got..])
    ensures w[..got] == w
  {
  }

  /** Where the headers of w may first be seen complete: at their end or up to one chunk later. */
  predicate SeenAt(w: string, h: nat, m: nat) { h + 4 <= m <= |w| && m <= h + 3 + CHUNK }

  /** Seen complete after m bytes, the headers announce a length, and nothing stands beyond it unread. */
  predicate Settles(w: string, h: nat, m: nat)
    requires m <= |w|
  {
    var length := LengthIn(w[..m]);
    length.Known? && (m == |w| || |w| <= h + 4 + length.n)
  }

  lemma {:induction false} ReadEarly(w: string, h: nat, got: nat, chunks: seq<string>)
    requires Find(w, BLANK_LINE, 0) == h && |w| <= MAX_REQUEST
    requires forall m :: SeenAt(w, h, m) ==> Settles(w, h, m)
    requires got <= |w| && got < h + 4 && Splits(chunks, w[got..])
    ensures ReadFrom(State(w[..got], None), chunks) == Assembled(w)
    decreases |chunks|
  {
    hide Find, Receive, LengthIn, Splits;
    if chunks == [] {
      SplitsNothing(w, got);
    } else {
      SplitsRest(w, got, chunks);
      var m := got + |chunks[0]|;
      ReceiveEarly(w, h, got, m);
      if m < h + 4 {
        ReadEarly(w, h, m, chunks[1..]);
      } else {
        assert SeenAt(w, h, m) && Settles(w, h, m);
        var n := LengthIn(w[..m]).n;
        if m < h + 4 + n { ReadLate(w, h + 4 + n, m, chunks[1..]); } else { assert w[..m] == w; }
      }
    }
  }

  // ---- one split for every moment -----------------------------------------

  /** One byte per chunk. */
  function Bytewise(s: string): seq<string> {
    seq(|s|, i requires 0 <= i < |s| => [s[i]])
  }

  lemma {:induction false} JoinedAppend(a: seq<string>, b: seq<string>)
    ensures Joined(a + b) == Joined(a) + Joined(b)
  {
    if a == [] {
      assert a + b == b;
    } else {
      assert (a + b)[1..] == a[1..] + b;
      JoinedAppend(a[1..], b);
    }
  }

  lemma {:induction false} JoinedBytewise(s: string)
    ensures Joined(Bytewise(s)) == s
  {
    if s != "" {
      assert Bytewise(s)[1..] == Bytewise(s[1..]);
      JoinedBytewise(s[1..]);
    }
  }

  lemma BytewiseStep(w: string, got: nat, m: nat, rest: seq<string>)
    requires got < m <= |w|
    ensures var chunks := Bytewise(w[got..m]) + rest;
      chunks != [] && chunks[0] == w[got..got + 1] == [w[got]] && chunks[1..] == Bytewise(w[got + 1..m]) + rest
  {
    assert w[got..m][1..] == w[got + 1..m];
  }

  lemma {:induction false} EarlyBytewise(w: string, h: nat, got: nat, m: nat, rest: seq<string>)
    requires Find(w, BLANK_LINE, 0) == h && |w| <= MAX_REQUEST && got <= m < h + 4 && m <= |w|
    ensures ReadFrom(State(w[..got], None), Bytewise(w[got..m]) + rest) == ReadFrom(State(w[..m], None), rest)
    decreases m - got
  {
    hide Find, Receive, LengthIn, Bytewise;
    if got == m {
      NoBytes(rest);
      assert w[got..m] == "";
    } else {
      BytewiseStep(w, got, m, rest);
      ReceiveEarly(w, h, got, got + 1);
      EarlyBytewise(w, h, got + 1, m, rest);
    }
  }

  lemma {:induction false} LateBytewise(w: string, total: nat, got: nat, m: nat, rest: seq<string>)
    requires |w| <= MAX_REQUEST && got <= m < total && m <= |w|
    ensures ReadFrom(State(w[..got], Some(total)), Bytewise(w[got..m]) + rest) == ReadFrom(State(w[..m], Some(total)), rest)
    decreases m - got
  {
    hide Receive, Bytewise;
    if got == m {
      NoBytes(rest);
      assert w[got..m] == "";
    } else {
      BytewiseStep(w, got, m, rest);
      ReceiveLate(w, total, got, got + 1);
      LateBytewise(w, total, got + 1, m, rest);
    }
  }

  lemma NoBytes(rest: seq<string>)
    ensures Bytewise("") + rest == rest
  {
  }

  /** What a split comes to whose header block is first seen complete after m bytes, and whose bytes then trickle in. */
  function Settled(w: string, h: nat, m: nat): Outcome
    requires m <= |w|
  {
    match LengthIn(w[..m])
    case Malformed => BadLength
    case TooBig => TooLarge
    case Known(n) =>
      Assembled(w[..if m >= h + 4 + n then m else if h + 4 + n <= |w| then h + 4 + n else |w|])
  }

  lemma TrickleIn(w: string, total: nat, m: nat)
    requires |w| <= MAX_REQUEST && m <= |w| && m < total
    ensures ReadFrom(State(w[..m], Some(total)), Bytewise(w[m..])) == Assembled(w[..if total <= |w| then total else |w|])
  {
    hide Receive, Bytewise;
    var none: seq<string> := [];
    if |w| < total {
      LateBytewise(w, total, m, |w|, none);
      assert w[m..|w|] == w[m..] && Bytewise(w[m..]) + none == Bytewise(w[m..]);
    } else {
      var last := Bytewise(w[total - 1..]);
      BytewiseStep(w, total - 1, |w|, none);
      assert w[total - 1..|w|] == w[total - 1..] && last + none == last;
      BytewiseAppend(w[m..total - 1], w[total - 1..]);
      assert w[m..total - 1] + w[total - 1..] == w[m..];
      LateBytewise(w, total, m, total - 1, last);
      ReceiveLate(w, total, total - 1, total);
    }
  }

  lemma BytewiseAppend(a: string, b: string)
    ensures Bytewise(a + b) == Bytewise(a) + Bytewise(b)
  {
  }

  /** Every moment at which the headers may first be complete is the moment of some split. */
  lemma SplitAt(w: string, h: nat, m: nat) returns (chunks: seq<string>)
    requires Find(w, BLANK_LINE, 0) == h && |w| <= MAX_REQUEST && SeenAt(w, h, m)
    ensures Splits(chunks, w) && ReadAll(chunks) == Settled(w, h, m)
  {
    hide Find, Receive, LengthIn, Bytewise;
    var start := if m <= CHUNK then 0 else m - CHUNK;
    var rest := [w[start..m]] + Bytewise(w[m..]);
    chunks := Bytewise(w[..start]) + rest;
    CutIsSplit(w, start, m);
    assert w[0..start] == w[..start] && w[..0] == "";
    EarlyBytewise(w, h, 0, start, rest);
    ReceiveEarly(w, h, start, m);
    assert rest[1..] == Bytewise(w[m..]);
    var length := LengthIn(w[..m]);
    if length.Known? && m < h + 4 + length.n { TrickleIn(w, h + 4 + length.n, m); }
  }

  lemma CutIsSplit(w: string, start: nat, m: nat)
    requires start < m <= |w| && m - start <= CHUNK
    ensures Splits(Bytewise(w[..start]) + ([w[start..m]] + Bytewise(w[m..])), w)
  {
    var rest := [w[start..m]] + Bytewise(w[m..]);
    JoinedBytewise(w[..start]);
    JoinedBytewise(w[m..]);
    JoinedAppend(Bytewise(w[..start]), rest);
    assert rest[1..] == Bytewise(w[m..]);
    assert w == w[..start] + (w[start..m] + w[m..]);
  }

  /**
   Every split of a text of at most 64 MiB assembles the text itself exactly when, at every
   moment the headers may first be seen complete, the length then announced covers it.
   */
  lemma ChunkingExactly(w: string, h: nat)
    requires Find(w, BLANK_LINE, 0) == h && |w| <= MAX_REQUEST
    ensures (forall chunks :: Splits(chunks, w) ==> ReadAll(chunks) == Assembled(w)) <==>
      forall m :: SeenAt(w, h, m) ==> Settles(w, h, m)
  {
    hide LengthIn, Find, Splits;
    assert w[0..] == w && w[..0] == "";
    if forall m :: SeenAt(w, h, m) ==> Settles(w, h, m) {
      forall chunks | Splits(chunks, w) ensures ReadAll(chunks) == Assembled(w) {
        ReadEarly(w, h, 0, chunks);
      }
    } else {
      var m :| SeenAt(w, h, m) && !Settles(w, h, m);
      var chunks := SplitAt(w, h, m);
    }
  }

  // ---- a length that does not depend on what has arrived ------------------

  /**
   For a request of at most 64 MiB whose headers announce n body bytes, every split into
   chunks assembles the request itself exactly when there are no more than n of them.
   */
  lemma ChunkingIndependent(w: string, h: nat, n: nat)
    requires Announces(w, h, n) && |w| <= MAX_REQUEST
    ensures (forall chunks :: Splits(chunks, w) ==> ReadAll(chunks) == Assembled(w)) <==> |w| <= h + 4 + n
  {
    hide LengthIn, Find, Splits;
    ChunkingExactly(w, h);
    HeadersInside(w, h);
    if |w| > h + 4 + n { assert SeenAt(w, h, h + 4) && !Settles(w, h, h + 4); }
  }

  lemma HeadersInside(w: string, h: nat)
    requires Find(w, BLANK_LINE, 0) == h
    ensures h + 4 <= |w|
  {
    assert At(w, BLANK_LINE, h);
  }

  /** Byte by byte until just before the body ends, then the rest up to m in one chunk. */
  lemma OverrunAfterHeaders(w: string, h: nat, n: nat, m: nat, tail: seq<string>)
    requires Find(w, BLANK_LINE, 0) == h && |w| <= MAX_REQUEST
    requires h + 4 <= |w| && LengthIn(w[..h + 4]) == Known(n) && n > 0 && h + 4 + n <= m <= |w|
    ensures ReadFrom(State(w[..h + 4], Some(h + 4 + n)), Bytewise(w[h + 4..h + 3 + n]) + ([w[h + 3 + n..m]] + tail)) == Assembled(w[..m])
  {
    hide LengthIn, Find, At, Receive, Bytewise;
    var rest := [w[h + 3 + n..m]] + tail;
    LateBytewise(w, h + 4 + n, h + 4, h + 3 + n, rest);
    ReceiveLate(w, h + 4 + n, h + 3 + n, m);
  }

  lemma OverrunFromHeaders(w: string, h: nat, n: nat, m: nat, tail: seq<string>)
    requires Find(w, BLANK_LINE, 0) == h && |w| <= MAX_REQUEST && h + 4 + n <= m <= |w|
    requires LengthIn(w[..h + 4]) == Known(n) && LengthIn(w[..m]) == Known(n)
    ensures ReadFrom(State(w[..h + 3], None), Bytewise(w[h + 3..h + 3 + n]) + ([w[h + 3 + n..m]] + tail)) == Assembled(w[..m])
  {
    hide LengthIn, Find, At, Receive, Bytewise;
    var rest := [w[h + 3 + n..m]] + tail;
    if n == 0 {
      assert w[h + 3..h + 3] == "";
      NoBytes(rest);
      ReceiveEarly(w, h, h + 3, m);
    } else {
      BytewiseStep(w, h + 3, h + 3 + n, rest);
      ReceiveEarly(w, h, h + 3, h + 4);
      OverrunAfterHeaders(w, h, n, m, tail);
    }
  }

  lemma ReadOverrun(w: string, h: nat, n: nat, m: nat) returns (chunks: seq<string>)
    requires Find(w, BLANK_LINE, 0) == h && |w| <= MAX_REQUEST && h + 4 + n <= m <= |w| && m < h + 4 + n + CHUNK
    requires LengthIn(w[..h + 4]) == Known(n) && LengthIn(w[..m]) == Known(n)
    ensures Splits(chunks, w) && ReadAll(chunks) == Assembled(w[..m])
  {
    hide LengthIn, Find, At, Receive, Bytewise, Splits;
    var rest := [w[h + 3 + n..m]] + Bytewise(w[m..]);
    chunks := Bytewise(w[..h + 3 + n]) + rest;
    CutIsSplit(w, h + 3 + n, m);
    var more := Bytewise(w[h + 3..h + 3 + n]) + rest;
    BytewiseCut(w, h + 3, h + 3 + n, rest);
    assert w[..0] == "" && w[0..h + 3] == w[..h + 3];
    EarlyBytewise(w, h, 0, h + 3, more);
    OverrunFromHeaders(w, h, n, m, Bytewise(w[m..]));
  }

  lemma BytewiseCut(w: string, a: nat, b: nat, rest: seq<string>)
    requires a <= b <= |w|
    ensures Bytewise(w[..b]) + rest == Bytewise(w[..a]) + (Bytewise(w[a..b]) + rest)
  {
    hide Bytewise;
    BytewiseAppend(w[..a], w[a..b]);
    assert w[..a] + w[a..b] == w[..b];
  }

  /** With surplus bytes even two splits of the same text disagree. */
  lemma SurplusDependsOnChunking(w: string, h: nat, n: nat) returns (a: seq<string>, b: seq<string>)
    requires Announces(w, h, n) && h + 4 + n < |w| <= MAX_REQUEST
    ensures Splits(a, w) && Splits(b, w) && ReadAll(a) != ReadAll(b)
  {
    a := ReadOverrun(w, h, n, h + 4 + n);
    b := ReadOverrun(w, h, n, h + 4 + n + 1);
    assert |w[..h + 4 + n]| < |w[..h + 4 + n + 1]|;
  }

  /**
   A body that spells the length header's name is mistaken for it when the header itself
   is written in lower case: whole requests are then assembled when the headers arrive
   first, and refused when everything arrives at once.
   */
  lemma BodySpellsName(w: string, h: nat, n: nat) returns (a: seq<string>, b: seq<string>)
    requires Find(w, BLANK_LINE, 0) == h && LengthIn(w[..h + 4]) == Known(n)
    requires |w| == h + 4 + n && n < CHUNK && |w| <= MAX_REQUEST
    requires h + 4 <= Find(w, LENGTH_NAME, 0) && !LengthIn(w).Known?
    ensures Splits(a, w) && ReadAll(a) == Assembled(w)
    ensures Splits(b, w) && !ReadAll(b).Assembled?
  {
    hide LengthIn, Find;
    assert w[..|w|] == w;
    a := SplitAt(w, h, h + 4);
    b := SplitAt(w, h, |w|);
  }

  /** Without a line break after it a length header runs to the end of what has arrived. */
  lemma LengthToEnd(req: string, p: nat)
    requires p + 15 <= |req| && forall i: nat :: p <= i ==> !At(req, CRLF, i)
    ensures LengthText(req, p) == req[p + 15..]
  {
    hide At;
  }

  // ---- refusals -----------------------------------------------------------

  /** The answer to a length that is no number, or too large a one. */
  function Refusal(length: Length): Outcome { if length.Malformed? then BadLength else TooLarge }

  lemma {:induction false} ReadRefused(w: string, h: nat, got: nat, chunks: seq<string>, bad: Length)
    requires Find(w, BLANK_LINE, 0) == h && |w| <= MAX_REQUEST && !bad.Known?
    requires forall m: nat :: SeenAt(w, h, m) ==> LengthIn(w[..m]) == bad
    requires got <= |w| && got < h + 4 && Splits(chunks, w[got..])
    ensures ReadFrom(State(w[..got], None), chunks) == Refusal(bad)
    decreases |chunks|
  {
    hide Find, Receive, LengthIn, Splits;
    HeadersInside(w, h);
    if chunks == [] {
      SplitsNothing(w, got);
    } else {
      SplitsRest(w, got, chunks);
      var m := got + |chunks[0]|;
      ReceiveEarly(w, h, got, m);
      if m < h + 4 { ReadRefused(w, h, m, chunks[1..], bad); } else { assert SeenAt(w, h, m); }
    }
  }

  /**
   Every split of a text of at most 64 MiB is refused with 400, or with 413, exactly when at
   every moment the headers may first be seen complete the length announced is no number, or
   is above the cap.
   */
  lemma RefusedExactly(w: string, h: nat, bad: Length)
    requires Find(w, BLANK_LINE, 0) == h && |w| <= MAX_REQUEST && !bad.Known?
    ensures (forall chunks :: Splits(chunks, w) ==> ReadAll(chunks) == Refusal(bad)) <==>
      forall m: nat :: SeenAt(w, h, m) ==> LengthIn(w[..m]) == bad
  {
    hide LengthIn, Find, Splits;
    assert w[0..] == w && w[..0] == "";
    if forall m: nat :: SeenAt(w, h, m) ==> LengthIn(w[..m]) == bad {
      forall chunks | Splits(chunks, w) ensures ReadAll(chunks) == Refusal(bad) {
        ReadRefused(w, h, 0, chunks, bad);
      }
    } else {
      var m: nat :| SeenAt(w, h, m) && LengthIn(w[..m]) != bad;
      var chunks := SplitAt(w, h, m);
    }
  }

  lemma ReceiveTooMuch(w: string, got: nat, m: nat, total: Option<nat>)
    requires got <= m <= |w| && m > MAX_REQUEST
    ensures Receive(State(w[..got], total), w[got..m]) == Done(TooLarge)
  {
    assert w[..got] + w[got..m] == w[..m];
  }

  lemma {:induction false} ReadTooMuch(w: string, h: nat, n: nat, got: nat, chunks: seq<string>)
    requires Announces(w, h, n) && MAX_REQUEST < |w| <= h + 4 + n
    requires got <= MAX_REQUEST && Splits(chunks, w[got..])
    ensures ReadFrom(State(w[..got], if got < h + 4 then None else Some(h + 4 + n)), chunks) == TooLarge
    decreases |chunks|
  {
    hide Find, Receive, LengthIn, Splits;
    if chunks == [] {
      SplitsNothing(w, got);
    } else {
      SplitsRest(w, got, chunks);
      var m := got + |chunks[0]|;
      if m > MAX_REQUEST {
        ReceiveTooMuch(w, got, m, if got < h + 4 then None else Some(h + 4 + n));
      } else {
        if got < h + 4 { ReceiveEarly(w, h, got, m); } else { ReceiveLate(w, h + 4 + n, got, m); }
        ReadTooMuch(w, h, n, m, chunks[1..]);
      }
    }
  }

  /** A request of more than 64 MiB whose headers announce all of it is refused with 413, however it is split. */
  lemma OversizeRefused(w: string, h: nat, n: nat, chunks: seq<string>)
    requires Announces(w, h, n) && MAX_REQUEST < |w| <= h + 4 + n && Splits(chunks, w)
    ensures ReadAll(chunks) == TooLarge
  {
    hide Announces, Splits;
    assert w[0..] == w && w[..0] == "";
    ReadTooMuch(w, h, n, 0, chunks);
  }

  lemma ReceiveHeaderless(w: string, got: nat, m: nat)
    requires Find(w, BLANK_LINE, 0) == -1 && got <= m <= |w|
    ensures Receive(State(w[..got], None), w[got..m]) == if m > MAX_REQUEST then Done(TooLarge) else More(State(w[..m], None))
  {
    hide Find, At, LengthIn;
    FindInPrefix(w, BLANK_LINE, 0, m);
    assert w[..got] + w[got..m] == w[..m];
  }

  lemma {:induction false} ReadHeaderless(w: string, got: nat, chunks: seq<string>)
    requires Find(w, BLANK_LINE, 0) == -1 && got <= |w| && got <= MAX_REQUEST && Splits(chunks, w[got..])
    ensures ReadFrom(State(w[..got], None), chunks) == if |w| > MAX_REQUEST then TooLarge else Assembled(w)
    decreases |chunks|
  {
    hide Find, Receive, Splits;
    if chunks == [] {
      SplitsNothing(w, got);
      assert got == |w|;
    } else {
      SplitsRest(w, got, chunks);
      var m := got + |chunks[0]|;
      ReceiveHeaderless(w, got, m);
      if m <= MAX_REQUEST { ReadHeaderless(w, m, chunks[1..]); }
    }
  }

  /** A text without a blank line is what the client sent when it closes, or too large, however it is split. */
  lemma HeaderlessText(w: string, chunks: seq<string>)
    requires Find(w, BLANK_LINE, 0) == -1 && Splits(chunks, w)
    ensures ReadAll(chunks) == if |w| > MAX_REQUEST then TooLarge else Assembled(w)
  {
    hide Find, Splits;
    assert w[0..] == w && w[..0] == "";
    ReadHeaderless(w, 0, chunks);
  }

  // ---- no length header ---------------------------------------------------

  /** The length header's name occurs in neither spelling. */
  ghost predicate NoLengthName(s: string) {
    forall i: nat :: !At(s, LENGTH_NAME, i) && !At(s, LENGTH_NAME_LOWER, i)
  }

  lemma NotAcrossEnd(head: string, name: string, i: nat)
    requires '\r' !in name && '\n' !in name && name != "" && !At(head, name, i)
    ensures !At(head + BLANK_LINE, name, i)
  {
    var w := head + BLANK_LINE;
    if i + |name| <= |head| {
      assert w[i..i + |name|] == head[i..i + |name|];
    } else if i <= |head| {
      assert w[|head|] == '\r' && (i == |head| ==> name[0] in name);
      NotAt(w, name, i, |head| - i);
    } else {
      assert i < |w| ==> w[i] == BLANK_LINE[i - |head|];
      NotAt(w, name, i, 0);
    }
  }

  lemma NoNameInBare(head: string)
    requires NoLengthName(head)
    ensures NoLengthName(head + BLANK_LINE)
  {
    hide At;
    forall i: nat ensures !At(head + BLANK_LINE, LENGTH_NAME, i) && !At(head + BLANK_LINE, LENGTH_NAME_LOWER, i) {
      assert !At(head, LENGTH_NAME, i) && !At(head, LENGTH_NAME_LOWER, i);
      NotAcrossEnd(head, LENGTH_NAME, i);
      NotAcrossEnd(head, LENGTH_NAME_LOWER, i);
    }
  }

  lemma NoLengthNoBody(w: string)
    requires NoLengthName(w)
    ensures LengthIn(w) == Known(0)
  {
    hide At;
  }

  /** Headers without a length header announce no body: they are the whole request, however they are split. */
  lemma BareHeaders(head: string, chunks: seq<string>)
    requires Find(head + BLANK_LINE, BLANK_LINE, 0) == |head| && NoLengthName(head)
    requires |head| + 4 <= MAX_REQUEST && Splits(chunks, head + BLANK_LINE)
    ensures ReadAll(chunks) == Assembled(head + BLANK_LINE)
  {
    hide Find, Splits, NoLengthName, LengthIn, ReadAll;
    var w := head + BLANK_LINE;
    NoNameInBare(head);
    NoLengthNoBody(w);
    assert w[..|w|] == w;
    ChunkingExactly(w, |head|);
  }

  // ---- headers whose announcement is settled ------------------------------

  /** The length header stands among the headers and is the first text that looks like one. */
  lemma OwnHeader(w: string, h: nat, n: nat)
    requires Find(w, BLANK_LINE, 0) == h
    requires LengthIn(w[..h + 4]) == Known(n)
    requires
      || 0 <= Find(w, LENGTH_NAME, 0) <= h - 15
      || (Find(w, LENGTH_NAME, 0) == -1 && 0 <= Find(w, LENGTH_NAME_LOWER, 0) <= h - 15)
      || (n == 0 && Find(w, LENGTH_NAME, 0) == -1 && Find(w, LENGTH_NAME_LOWER, 0) == -1)
    ensures Announces(w, h, n)
  {
    hide Find, LengthValue;
    assert At(w, BLANK_LINE, h);
    forall m | h + 4 <= m <= |w| ensures LengthIn(w[..m]) == Known(n) {
      SameLength(w, h, m);
    }
  }

  lemma SameText(w: string, h: nat, m: nat, p: nat)
    requires At(w, BLANK_LINE, h) && h + 4 <= m <= |w| && p <= h
    ensures LengthText(w[..m], p) == LengthText(w[..h + 4], p)
  {
    hide Find;
    assert w[h..h + 2] == w[h..h + 4][..2] == CRLF;
    assert At(w, CRLF, h);
    var e := Find(w, CRLF, p);
    assert e != -1 && e <= h;
    FindInPrefix(w, CRLF, p, m);
    FindInPrefix(w, CRLF, p, h + 4);
    if p + 15 <= e { assert w[..m][p + 15..e] == w[..h + 4][p + 15..e]; }
  }

  lemma FindInHeaders(w: string, pat: string, h: nat, m: nat)
    requires |pat| == 15 && h + 4 <= m <= |w| && (Find(w, pat, 0) == -1 || Find(w, pat, 0) <= h - 15)
    ensures Find(w[..m], pat, 0) == Find(w, pat, 0)
  {
    hide Find, At;
    FindInPrefix(w, pat, 0, m);
  }

  /** The length header is found at the same place however much follows the headers. */
  lemma SameLengthAt(w: string, h: nat, m: nat)
    requires h + 4 <= m <= |w|
    requires Find(w, LENGTH_NAME, 0) == -1 || Find(w, LENGTH_NAME, 0) <= h - 15
    requires Find(w, LENGTH_NAME, 0) == -1 ==> Find(w, LENGTH_NAME_LOWER, 0) == -1 || Find(w, LENGTH_NAME_LOWER, 0) <= h - 15
    ensures LengthAt(w[..m]) == LengthAt(w) && -1 <= LengthAt(w) <= h
  {
    hide Find, At;
    FindInHeaders(w, LENGTH_NAME, h, m);
    if Find(w, LENGTH_NAME, 0) == -1 { FindInHeaders(w, LENGTH_NAME_LOWER, h, m); }
  }

  lemma SameLength(w: string, h: nat, m: nat)
    requires Find(w, BLANK_LINE, 0) == h && h + 4 <= m <= |w|
    requires Find(w, LENGTH_NAME, 0) == -1 || Find(w, LENGTH_NAME, 0) <= h - 15
    requires Find(w, LENGTH_NAME, 0) == -1 ==> Find(w, LENGTH_NAME_LOWER, 0) == -1 || Find(w, LENGTH_NAME_LOWER, 0) <= h - 15
    ensures LengthIn(w[..m]) == LengthIn(w[..h + 4])
  {
    hide Find, LengthValue, LengthText, LengthAt, At;
    SameLengthAt(w, h, m);
    SameLengthAt(w, h, h + 4);
    var p := LengthAt(w[..m]);
    if p != -1 { SameText(w, h, m, p); }
  }
}
