/**
 Taking an assembled request apart: method, path, query, bearer token and body, as the
 connection handler does before it dispatches.
 */
module HttpParse {
  import opened Text
  import opened HttpRead

  datatype Request = Request(verb: string, path: string, query: string, bearer: string, body: string)

  /** The characters before the first white space. */
  function Word(s: string): (w: string)
    ensures w <= s
  {
    if s == "" || IsSpace(s[0]) then "" else [s[0]] + Word(s[1..])
  }

  /** What stands after the first word. */
  function AfterWord(s: string): string {
    var t := SkipSpace(s);
    t[|Word(t)|..]
  }

  function LowerChar(c: char): char {
    if 'A' <= c <= 'Z' then (c as int + 32) as char else c
  }

  function Lower(s: string): (r: string)
    ensures |r| == |s| && forall i :: 0 <= i < |s| ==> r[i] == LowerChar(s[i])
  {
    seq(|s|, i requires 0 <= i < |s| => LowerChar(s[i]))
  }

  function TrimEnd(s: string): string {
    if s != "" && (IsBlank(s[|s| - 1]) || s[|s| - 1] == '\r' || s[|s| - 1] == '\n') then TrimEnd(s[..|s| - 1]) else s
  }

  /** The 26 bytes from 65 on are the capital letters, each 32 before its small letter; nothing else changes. */
  lemma LowerLetters(c: char)
    ensures 65 <= c as int < 91 ==> LowerChar(c) as int == c as int + 32
    ensures c as int < 65 || 91 <= c as int ==> LowerChar(c) == c
  {
  }

  const AUTHORIZATION := "authorization:"

  function LineFrom(s: string, i: nat): string
    requires i <= |s|
  {
    var e := Find(s, CRLF, i);
    s[i..if e == -1 then |s| else e]
  }

  /** The token of the first authorization header, in any letter case, without its `Bearer ` prefix. */
  function BearerOf(headers: string): string {
    var p := Find(Lower(headers), AUTHORIZATION, 0);
    if p == -1 then "" else
    var line := LineFrom(headers, p);
    var v := SkipBlank(if |line| >= 14 then line[14..] else "");
    TrimEnd(if |v| >= 7 && Lower(v[..7]) == "bearer " then v[7..] else v)
  }

  /** The parsed request; None when there is not even one line. */
  function Parse(req: string): Option<Request> {
    var nl := Find(req, CRLF, 0);
    if nl == -1 then None else
    var line := req[..nl];
    var target := Word(SkipSpace(AfterWord(line)));
    var q := FindChar(target, '?', 0);
    var h := Find(req, BLANK_LINE, 0);
    Some(Request(
      Word(SkipSpace(line)),
      if q == -1 then target else target[..q],
      if q == -1 then "" else target[q + 1..],
      BearerOf(if h == -1 then req else req[..h]),
      if h == -1 then "" else req[h + 4..]))
  }

  // ---- a printed request is parsed back -----------------------------------

  predicate NoSpace(s: string) { forall i :: 0 <= i < |s| ==> !IsSpace(s[i]) }

  function Target(path: string, query: string): string {
    if query == "" then path else path + "?" + query
  }

  lemma {:induction false} WordIs(w: string, rest: string)
    requires NoSpace(w) && (rest == "" || IsSpace(rest[0]))
    ensures Word(w + rest) == w
  {
    if w == "" {
      assert w + rest == rest;
    } else {
      assert (w + rest)[1..] == w[1..] + rest;
      WordIs(w[1..], rest);
    }
  }

  /** A request line: two words, with any white space before, between and after them. */
  function Line(before: string, verb: string, between: string, target: string, after: string): string {
    before + verb + between + target + after
  }

  lemma SplitLine(before: string, verb: string, between: string, target: string, after: string)
    requires verb != "" && target != "" && NoSpace(verb) && NoSpace(target)
    requires AllSpace(before) && AllSpace(between) && between != "" && (after == "" || IsSpace(after[0]))
    ensures var line := Line(before, verb, between, target, after);
      Word(SkipSpace(line)) == verb && Word(SkipSpace(AfterWord(line))) == target
  {
    var line := Line(before, verb, between, target, after);
    var tail := target + after;
    var rest := between + tail;
    assert line == before + (verb + rest);
    SkipsSpaces(before, verb + rest);
    WordIs(verb, rest);
    assert (verb + rest)[|verb|..] == rest;
    SkipsSpaces(between, tail);
    WordIs(target, after);
  }

  lemma SplitTarget(path: string, query: string)
    requires forall i :: 0 <= i < |path| ==> path[i] != '?'
    ensures var t := Target(path, query); var q := FindChar(t, '?', 0);
      (if q == -1 then t else t[..q]) == path && (if q == -1 then "" else t[q + 1..]) == query
  {
    var t := Target(path, query);
    if query == "" {
      assert FindChar(t, '?', 0) == -1;
    } else {
      FindCharIs(t, '?', 0, |path|);
    }
  }

  /** Method, path and query of a request line come back as they were sent, whatever white space is around them. */
  lemma ParseRequestLine(before: string, verb: string, between: string, path: string, query: string, after: string, rest: string)
    requires verb != "" && Target(path, query) != "" && NoSpace(verb) && NoSpace(path) && NoSpace(query)
    requires forall i :: 0 <= i < |path| ==> path[i] != '?'
    requires AllSpace(before) && AllSpace(between) && between != "" && (after == "" || IsSpace(after[0]))
    requires var line := Line(before, verb, between, Target(path, query), after); Find(line + CRLF + rest, CRLF, 0) == |line|
    ensures var p := Parse(Line(before, verb, between, Target(path, query), after) + CRLF + rest);
      p.Some? && p.value.verb == verb && p.value.path == path && p.value.query == query
  {
    var target := Target(path, query);
    assert NoSpace(target);
    hide Find, FindChar, BearerOf, Word, AfterWord, SkipSpace, Target, Line;
    var line := Line(before, verb, between, target, after);
    assert (line + CRLF + rest)[..|line|] == line;
    SplitLine(before, verb, between, target, after);
    SplitTarget(path, query);
  }

  /** A text is dropped exactly when it holds no line break; without a blank line it is all headers and no body. */
  lemma ParseWithoutBody(req: string)
    requires forall i: nat :: !At(req, BLANK_LINE, i)
    ensures Parse(req).None? <==> forall i: nat :: !At(req, CRLF, i)
    ensures Parse(req).Some? ==> Parse(req).value.body == "" && Parse(req).value.bearer == BearerOf(req)
  {
    hide At, BearerOf, Word, SkipSpace;
  }

  /** The body is what follows the first blank line. */
  lemma ParseBody(head: string, body: string)
    requires Find(head + BLANK_LINE + body, BLANK_LINE, 0) == |head|
    requires Find(head + BLANK_LINE + body, CRLF, 0) != -1
    ensures var p := Parse(head + BLANK_LINE + body);
      p.Some? && p.value.body == body && p.value.bearer == BearerOf(head)
  {
    hide Find, BearerOf, Word, SkipSpace;
    var req := head + BLANK_LINE + body;
    assert req[..|head|] == head && req[|head| + 4..] == body;
  }

  /** Headers that nowhere spell the authorization header's name give an empty token. */
  lemma NoBearer(headers: string)
    requires forall i: nat :: !At(Lower(headers), AUTHORIZATION, i)
    ensures BearerOf(headers) == ""
  {
    hide At, Lower;
  }

  /** The header's prefix in any letter case, or none. */
  predicate IsPrefix(prefix: string, value: string) {
    if prefix == "" then value != "" && !IsBlank(value[0]) && !(|value| >= 7 && Lower(value[..7]) == "bearer ")
    else Lower(prefix) == "bearer "
  }

  lemma ValueOfHeader(prefix: string, value: string)
    requires IsPrefix(prefix, value)
    ensures var v := prefix + value;
      v != "" && !IsBlank(v[0]) && (if |v| >= 7 && Lower(v[..7]) == "bearer " then v[7..] else v) == value
  {
    var v := prefix + value;
    if prefix == "" {
      assert v == value;
    } else {
      assert |prefix| == 7 && v[..7] == prefix && v[7..] == value;
      assert Lower(prefix)[0] == 'b';
    }
  }

  lemma {:induction false} TrimEndIs(token: string, trail: string)
    requires TrimEnd(token) == token && AllBlank(trail)
    ensures TrimEnd(token + trail) == token
  {
    if trail == "" {
      assert token + trail == token;
    } else {
      var w := token + trail;
      assert w[..|w| - 1] == token + trail[..|trail| - 1];
      TrimEndIs(token, trail[..|trail| - 1]);
    }
  }

  /**
   The token comes back from the first authorization header, in any letter case of the
   header's name and of its prefix, with or without a prefix and with blanks around it.
   */
  lemma BearerBack(before: string, name: string, pad: string, prefix: string, token: string, trail: string, after: string)
    requires Lower(name) == AUTHORIZATION && AllBlank(pad) && AllBlank(trail)
    requires IsPrefix(prefix, token + trail) && TrimEnd(token) == token
    requires var line := name + pad + (prefix + (token + trail));
      && Find(Lower(before + line + after), AUTHORIZATION, 0) == |before|
      && Find(before + line + after, CRLF, |before|) == if after == "" then -1 else |before| + |line|
    ensures BearerOf(before + (name + pad + (prefix + (token + trail))) + after) == token
  {
    hide Find, TrimEnd, SkipBlank, Lower, IsPrefix;
    var v := prefix + (token + trail);
    var line := name + pad + v;
    var headers := before + line + after;
    assert |name| == |Lower(name)| == 14;
    assert LineFrom(headers, |before|) == line;
    assert line[14..] == pad + v;
    ValueOfHeader(prefix, token + trail);
    SkipsBlanks(pad, v);
    TrimEndIs(token, trail);
  }
}
