/**
 What a client observes over several requests: a put followed by a get, a batch, and
 paging through the whole database while it changes.
 */
module Requests {
  import opened Text
  import opened Json
  import opened Fields
  import opened Query
  import opened Store

  // ---- get ----------------------------------------------------------------

  /**
   A get of any percent-encoding of a key answers with the record of that key if the
   database has one, and otherwise, and only then, that there is none.
   */
  lemma GetAnswers(db: seq<Pair>, key: string, raw: string)
    requires Ordered(db) && Encodes(raw, key)
    ensures forall v :: Pair(key, v) in db ==> GetReply(db, GetQuery(raw)) == Reply(200, Record(key, v))
    ensures (forall v :: Pair(key, v) !in db) ==> GetReply(db, GetQuery(raw)) == Reply(404, "{\"error\":\"not found\"}")
  {
    hide Record, Get, Encodes, Param, Decoded;
    GetParam(raw, key);
    DecodeEncoded(raw, key);
    GetIsMember(db, key);
    if Get(db, key).Some? { assert Pair(key, Get(db, key).value) in db; }
    NotFoundText();
  }

  /** A get without a key, or with one that cannot be decoded, is refused. */
  lemma GetRefused(db: seq<Pair>, query: string)
    ensures (forall i: nat :: !At(query, "key" + "=", i)) ==> GetReply(db, query).code == 400
    ensures Param(query, "key").Some? && Decoded(Param(query, "key").value).None? ==> GetReply(db, query).code == 500
  {
    hide Decoded, At, Escaped, Get;
  }

  lemma NotFoundText()
    ensures Failure(404, "not found") == Reply(404, "{\"error\":\"not found\"}")
  {
    hide Escaped, EscapedChar;
    EscapedPlain("not found");
  }

  // ---- put, then get ------------------------------------------------------

  /** Text the escaper leaves alone: no quote, no backslash, no control character. */
  predicate Plain(s: string) {
    forall i :: 0 <= i < |s| ==> s[i] != '"' && s[i] != '\\' && s[i] >= ' '
  }

  lemma {:induction false} EscapedLength(s: string)
    ensures |Escaped(s)| >= |s|
  {
    hide EscapedChar;
    if s != "" {
      EscapedLength(s[1..]);
      EscapedCharEnd(s[0]);
    }
  }

  lemma PlainCons(s: string)
    requires s != ""
    ensures Plain(s) == (EscapedChar(s[0]) == [s[0]] && Plain(s[1..]))
  {
    var t := s[1..];
    assert forall i :: 0 <= i < |t| ==> t[i] == s[i + 1];
    assert Plain(t) ==> forall i :: 1 <= i < |s| ==> s[i] == t[i - 1];
  }

  lemma SameCons(c: char, e: string, rest: string, t: string)
    requires |e| >= 1 && |rest| >= |t|
    ensures e + rest == [c] + t <==> e == [c] && rest == t
  {
    if e + rest == [c] + t {
      assert |e| == 1;
      assert (e + rest)[0] == e[0] && (e + rest)[1..] == rest && ([c] + t)[1..] == t;
    }
  }

  /** The escaper leaves exactly plain text alone. */
  lemma {:induction false} EscapedPlain(s: string)
    ensures Escaped(s) == s <==> Plain(s)
  {
    if s != "" {
      hide EscapedChar, Plain, EndsInBackslash;
      PlainCons(s);
      EscapedPlain(s[1..]);
      EscapedLength(s[1..]);
      EscapedCharEnd(s[0]);
      assert s == [s[0]] + s[1..];
      assert Escaped(s) == EscapedChar(s[0]) + Escaped(s[1..]);
      hide Escaped;
      SameCons(s[0], EscapedChar(s[0]), Escaped(s[1..]), s[1..]);
    }
  }

  lemma RecordInjective(k: string, v: string, v': string)
    requires Record(k, v) == Record(k, v')
    ensures v == v'
  {
    ReadOneRecord(Pair(k, v), "");
    ReadOneRecord(Pair(k, v'), "");
  }

  /**
   A put of a printed record, then a get of any percent-encoding of its key, answers
   with that record exactly when neither string needs escaping, or when the key does
   and the very pair was there before: the service stores the escaped text under the
   escaped key and never unescapes either.
   */
  lemma PutThenGet(db: seq<Pair>, k: string, v: string, raw: string)
    requires Ordered(db) && k != "" && Encodes(raw, k)
    ensures PutReply(Record(k, v)) == OK
    ensures var db' := PutEffect(db, Record(k, v));
      GetReply(db', GetQuery(raw)) == Reply(200, Record(k, v)) <==>
        if Plain(k) then Plain(v) else Get(db, k) == Some(v)
  {
    hide Record, Put, Get, Field, Encodes, Param, Decoded, Escaped, Plain;
    GetParam(raw, k);
    DecodeEncoded(raw, k);
    KeyOfRecord(k, v);
    ValueOfRecord(k, v);
    EscapedPlain(k);
    EscapedPlain(v);
    EscapedLength(k);
    var stored := Field(Record(k, v), "key");
    var value := Field(Record(k, v), "value");
    PutIsUpdate(db, stored, value);
    var db' := Put(db, stored, value);
    GetIsMember(db, k);
    GetIsMember(db', k);
    PlainEnd(k);
    PlainEnd(v);
    var found := Get(db', k);
    if stored == k {
      assert found == Some(value);
    } else {
      assert forall w :: Pair(k, w) in db <==> Pair(k, w) in db';
      SameOption(found, Get(db, k));
    }
    if found.Some? && Record(k, found.value) == Record(k, v) { RecordInjective(k, found.value, v); }
  }

  /** A put with an empty key is refused and writes nothing. */
  lemma PutNeedsKey(db: seq<Pair>, v: string)
    ensures PutReply(Record("", v)).code == 400 && PutEffect(db, Record("", v)) == db
  {
    hide Record, Field, Put;
    KeyOfRecord("", v);
  }

  lemma SameOption(a: Option<string>, b: Option<string>)
    requires forall v :: a == Some(v) <==> b == Some(v)
    ensures a == b
  {
    if a.Some? { assert b == Some(a.value); }
    if b.Some? { assert a == Some(b.value); }
  }

  lemma PlainEnd(s: string)
    ensures Plain(s) ==> !EndsInBackslash(s)
  {
  }

  // ---- a batch ------------------------------------------------------------

  /**
   A printed batch of 1 to 1000 pairs is written whole and in order, escaped, when no
   string ends in a backslash, and their number is told; an empty batch, or a printed batch
   of more than 1000 such pairs, is refused and writes nothing.
   */
  lemma BatchWrites(db: seq<Pair>, ps: seq<Pair>)
    requires NoneEndsInBackslash(ps)
    ensures 0 < |ps| <= MAX_PAIRS ==> BatchEffect(db, BatchBody(ps)) == PutAll(db, EscapedPairs(ps))
    ensures 0 < |ps| <= MAX_PAIRS ==> BatchReply(BatchBody(ps)) == Reply(200, "{\"status\":\"ok\",\"written\":" + Decimal(|ps|) + "}")
    ensures |ps| == 0 || |ps| > MAX_PAIRS ==> BatchEffect(db, BatchBody(ps)) == db && BatchReply(BatchBody(ps)).code == 400
  {
    hide Escaped, ScanPairs, BatchBody, Put, Decimal;
    BatchExact(ps);
  }

  /** No later pair of the list has the key of pair i. */
  predicate IsLast(ps: seq<Pair>, i: nat)
    requires i < |ps|
  {
    forall j :: i < j < |ps| ==> ps[j].key != ps[i].key
  }

  /** After a printed batch a get of each key written answers with the last value the batch gave it. */
  lemma BatchThenGet(db: seq<Pair>, ps: seq<Pair>, i: nat, raw: string)
    requires Ordered(db) && |ps| <= MAX_PAIRS && NoneEndsInBackslash(ps) && i < |ps| && IsLast(ps, i)
    requires Encodes(raw, Escaped(ps[i].key))
    ensures GetReply(BatchEffect(db, BatchBody(ps)), GetQuery(raw)) == Reply(200, Record(Escaped(ps[i].key), Escaped(ps[i].value)))
    ensures Plain(ps[i].key) && Plain(ps[i].value) ==>
      Encodes(raw, ps[i].key) && GetReply(BatchEffect(db, BatchBody(ps)), GetQuery(raw)) == Reply(200, Record(ps[i].key, ps[i].value))
  {
    hide Escaped, ScanPairs, BatchBody, PutAll, Record, GetReply, BatchEffect, Get, NoneEndsInBackslash, Encodes, Plain;
    var es := EscapedPairs(ps);
    BatchWrites(db, ps);
    forall j | i < j < |es| ensures es[j].key != es[i].key {
      if es[j].key == es[i].key { EscapedInjective(ps[j].key, ps[i].key); }
    }
    PutAllGets(db, es, es[i].key, i);
    var after := PutAll(db, es);
    GetIsMember(after, es[i].key);
    GetAnswers(after, es[i].key, raw);
    EscapedPlain(ps[i].key);
    EscapedPlain(ps[i].value);
  }

  /** And a get of any key the batch did not write answers as before. */
  lemma BatchKeepsOthers(db: seq<Pair>, ps: seq<Pair>, key: string, raw: string)
    requires Ordered(db) && 0 < |ps| <= MAX_PAIRS && NoneEndsInBackslash(ps) && Encodes(raw, key)
    requires forall i :: 0 <= i < |ps| ==> Escaped(ps[i].key) != key
    ensures GetReply(BatchEffect(db, BatchBody(ps)), GetQuery(raw)) == GetReply(db, GetQuery(raw))
  {
    hide Escaped, ScanPairs, BatchBody, PutAll, Record, BatchEffect, Get, NoneEndsInBackslash, Encodes, Param, Decoded;
    BatchWrites(db, ps);
    PutAllKeeps(db, EscapedPairs(ps), key);
    GetParam(raw, key);
    DecodeEncoded(raw, key);
  }

  // ---- paging -------------------------------------------------------------

  /** A page request whose cursor cannot be decoded is refused. */
  lemma ScanRefused(db: seq<Pair>, query: string)
    requires Param(query, "after").Some? && Decoded(Param(query, "after").value).None?
    ensures ScanReply(db, query).code == 500
  {
    hide Decoded, Escaped;
  }

  /** One page request: the database as it was then, the limit in force, the page answered. */
  datatype Visit = Visit(db: seq<Pair>, limit: nat, page: Page)

  /** The cursor of visit i: none at first, then the one the page before it returned. */
  function CursorOf(vs: seq<Visit>, i: nat): string
    requires i <= |vs|
  {
    if i > 0 && vs[i - 1].page.next.Some? then vs[i - 1].page.next.value else ""
  }

  /** Visit i read the page after the cursor that the visit before it returned. */
  ghost predicate GoodVisit(vs: seq<Visit>, i: nat)
    requires i < |vs|
  {
    && Ordered(vs[i].db) && vs[i].limit >= 1
    && vs[i].page == PageOf(vs[i].db, CursorOf(vs, i), vs[i].limit)
    && (i > 0 ==> vs[i - 1].page.next.Some?)
  }

  /** Pages read one after another, whatever the limits and whatever changed in between. */
  ghost predicate Follows(vs: seq<Visit>) {
    forall i :: 0 <= i < |vs| ==> GoodVisit(vs, i)
  }

  /** No page was asked for with an empty cursor, except the first. */
  predicate NoEmptyCursor(vs: seq<Visit>) {
    forall i :: 0 < i < |vs| ==> CursorOf(vs, i) != ""
  }

  /** Paging proper: every cursor sent back is one the service can tell from none. */
  ghost predicate Paging(vs: seq<Visit>) { Follows(vs) && NoEmptyCursor(vs) }

  /** No empty cursor went to a database that held an empty key at the time. */
  predicate NoneRestarts(vs: seq<Visit>) {
    forall i :: 0 < i < |vs| && CursorOf(vs, i) == "" ==> Get(vs[i].db, "").None?
  }

  /** The last page said that nothing remains. */
  predicate Complete(vs: seq<Visit>) {
    vs != [] && vs[|vs| - 1].page.next.None?
  }

  /** All records the client received, in order. */
  function Returned(vs: seq<Visit>): seq<Pair> {
    if vs == [] then [] else Returned(vs[..|vs| - 1]) + vs[|vs| - 1].page.records
  }

  lemma FollowsPrefix(vs: seq<Visit>, n: nat)
    requires Follows(vs) && n <= |vs|
    ensures Follows(vs[..n])
    ensures n > 0 ==> CursorOf(vs[..n], n - 1) == CursorOf(vs, n - 1)
    ensures CursorOf(vs[..n], n) == CursorOf(vs, n)
  {
    hide PageOf;
    forall i | 0 <= i < n ensures GoodVisit(vs[..n], i) {
      assert GoodVisit(vs, i);
    }
  }

  lemma PagingPrefix(vs: seq<Visit>, n: nat)
    requires Paging(vs) && n <= |vs|
    ensures Paging(vs[..n])
    ensures n > 0 ==> CursorOf(vs[..n], n - 1) == CursorOf(vs, n - 1)
    ensures CursorOf(vs[..n], n) == CursorOf(vs, n)
  {
    hide PageOf, Follows;
    FollowsPrefix(vs, n);
    forall i | 0 < i < n ensures CursorOf(vs[..n], i) != "" {
      assert CursorOf(vs, i) == CursorOf(vs[..n], i);
    }
  }

  lemma NoneRestartsPrefix(vs: seq<Visit>, n: nat)
    requires NoneRestarts(vs) && n <= |vs|
    ensures NoneRestarts(vs[..n])
  {
    hide Get;
    forall i | 0 < i < n ensures CursorOf(vs[..n], i) == CursorOf(vs, i) {
    }
  }

  /** Everything before the start of a page is at or below its cursor, everything from there on is above. */
  lemma StartSplits(db: seq<Pair>, after: string, j: nat)
    requires Ordered(db) && after != "" && j < |db|
    ensures j >= StartOf(db, after) <==> Less(after, db[j].key)
  {
    SeekSplits(db, after, j);
    LessIrreflexive(after);
    if Less(after, db[j].key) && Less(db[j].key, after) { LessTransitive(after, db[j].key, after); }
  }

  /** Every record returned so far is below the next cursor or at it. */
  predicate UpTo(ps: seq<Pair>, cursor: string) {
    forall i :: 0 <= i < |ps| ==> Less(ps[i].key, cursor) || ps[i].key == cursor
  }

  lemma PageAboveCursor(db: seq<Pair>, after: string, limit: nat)
    requires Ordered(db) && limit >= 1
    ensures var page := PageOf(db, after, limit); var beyond := after != "" || Get(db, "").None?;
      && Ordered(page.records)
      && (beyond ==> forall i :: 0 <= i < |page.records| ==> Less(after, page.records[i].key))
      && (page.next.Some? ==> UpTo(page.records, page.next.value) && (beyond ==> Less(after, page.next.value)))
  {
    var start := StartOf(db, after);
    var e := EndOf(db, after, limit);
    GetIsMember(db, "");
    if after != "" || Get(db, "").None? {
      forall i | start <= i < e ensures Less(after, db[i].key) {
        if after != "" { StartSplits(db, after, i); } else { assert Pair(db[i].key, db[i].value) in db; }
      }
    }
  }

  /** Records come back in strictly ascending key order over all pages, so no key comes back twice. */
  lemma {:induction false} PagesAscend(vs: seq<Visit>)
    requires Follows(vs) && NoneRestarts(vs)
    ensures Ordered(Returned(vs))
    ensures vs != [] && vs[|vs| - 1].page.next.Some? ==> UpTo(Returned(vs), CursorOf(vs, |vs|))
  {
    if vs != [] {
      var n := |vs| - 1;
      assert GoodVisit(vs, n);
      var before := Returned(vs[..n]);
      var page := vs[n].page;
      var cursor := CursorOf(vs, n);
      FollowsPrefix(vs, n);
      NoneRestartsPrefix(vs, n);
      PagesAscend(vs[..n]);
      PageAboveCursor(vs[n].db, cursor, vs[n].limit);
      hide Returned, PageOf, Follows, Get;
      assert n > 0 ==> UpTo(before, cursor) && (cursor != "" || Get(vs[n].db, "").None?);
      Append(before, page.records, cursor, n == 0);
      if page.next.Some? { Lower(before, cursor, page.next.value, n == 0); }
    }
  }

  lemma Append(a: seq<Pair>, b: seq<Pair>, cursor: string, first: bool)
    requires Ordered(a) && Ordered(b)
    requires if first then a == [] else UpTo(a, cursor) && forall i :: 0 <= i < |b| ==> Less(cursor, b[i].key)
    ensures Ordered(a + b)
  {
    forall i, j | 0 <= i < |a| && 0 <= j < |b| ensures Less(a[i].key, b[j].key) {
      if a[i].key != cursor { LessTransitive(a[i].key, cursor, b[j].key); }
    }
  }

  lemma Lower(a: seq<Pair>, cursor: string, next: string, first: bool)
    requires if first then a == [] else UpTo(a, cursor) && Less(cursor, next)
    ensures UpTo(a, next)
  {
    forall i | 0 <= i < |a| ensures Less(a[i].key, next) {
      if a[i].key != cursor { LessTransitive(a[i].key, cursor, next); }
    }
  }

  /** A key present in every snapshot is either still ahead of the cursor or already returned. */
  lemma {:induction false} PresentKeyReached(vs: seq<Visit>, key: string)
    requires Follows(vs)
    requires forall i :: 0 <= i < |vs| ==> Get(vs[i].db, key).Some?
    ensures vs != [] ==>
      || (vs[|vs| - 1].page.next.Some? && Less(CursorOf(vs, |vs|), key))
      || (exists p :: p in Returned(vs) && p.key == key)
  {
    if vs != [] {
      var n := |vs| - 1;
      assert GoodVisit(vs, n);
      FollowsPrefix(vs, n);
      PresentKeyReached(vs[..n], key);
      if n > 0 && exists p :: p in Returned(vs[..n]) && p.key == key {
        var p :| p in Returned(vs[..n]) && p.key == key;
        assert p in Returned(vs);
      } else {
        assert n > 0 ==> Less(CursorOf(vs, n), key);
        PageReaches(vs[n].db, CursorOf(vs, n), vs[n].limit, key);
        if !(vs[n].page.next.Some? && Less(vs[n].page.next.value, key)) {
          var p :| p in vs[n].page.records && p.key == key;
          assert p in Returned(vs);
        }
      }
    }
  }

  lemma PageReaches(db: seq<Pair>, after: string, limit: nat, key: string)
    requires Ordered(db) && limit >= 1
    requires Get(db, key).Some? && (after != "" ==> Less(after, key))
    ensures var page := PageOf(db, after, limit);
      (page.next.Some? && Less(page.next.value, key)) || exists p :: p in page.records && p.key == key
  {
    GetIsMember(db, key);
    var j :| 0 <= j < |db| && db[j].key == key;
    if after != "" { StartSplits(db, after, j); }
    var e := EndOf(db, after, limit);
    if e < |db| && j >= e { assert Less(db[e - 1].key, db[j].key); }
    if j < e { assert db[j] in db[StartOf(db, after)..e]; }
  }

  /**
   A client that pages to the end gets every key that was there throughout, whatever
   was inserted or deleted between the pages, and every record it gets was in the
   database when its page was read.
   */
  lemma PagesComplete(vs: seq<Visit>, key: string)
    requires Follows(vs) && Complete(vs)
    requires forall i :: 0 <= i < |vs| ==> Get(vs[i].db, key).Some?
    ensures exists p :: p in Returned(vs) && p.key == key
  {
    PresentKeyReached(vs, key);
  }

  lemma {:induction false} PagesGenuine(vs: seq<Visit>, p: Pair)
    requires Follows(vs) && p in Returned(vs)
    ensures exists i :: 0 <= i < |vs| && p in vs[i].page.records && Get(vs[i].db, p.key) == Some(p.value)
  {
    var n := |vs| - 1;
    assert GoodVisit(vs, n);
    if p in vs[n].page.records {
      GetIsMember(vs[n].db, p.key);
    } else {
      FollowsPrefix(vs, n);
      PagesGenuine(vs[..n], p);
      var i :| 0 <= i < n && p in vs[..n][i].page.records && Get(vs[..n][i].db, p.key) == Some(p.value);
      assert vs[..n][i] == vs[i];
    }
  }

  // ---- paging a database that does not change -----------------------------

  ghost predicate Unchanging(vs: seq<Visit>, db: seq<Pair>) {
    forall i :: 0 <= i < |vs| ==> vs[i].db == db
  }

  lemma NextPiece(db: seq<Pair>, after: string, limit: nat, m: nat)
    requires Ordered(db) && limit >= 1 && m <= |db|
    requires if m == 0 then after == "" else after == db[m - 1].key && after != ""
    ensures var e := EndOf(db, after, limit);
      && PageOf(db, after, limit) == Page(db[m..e], if e < |db| then Some(db[e - 1].key) else None)
      && m <= e && (m < |db| ==> m < e)
      && db[..m] + db[m..e] == db[..e]
  {
    if m > 0 {
      SeekSplits(db, after, m - 1);
    }
  }

  /**
   On a fixed database the pages are consecutive pieces of it: what has been returned is
   a prefix of it, a cursor comes back exactly when something remains, and reading on
   ends after at most one page per record.
   */
  lemma {:induction false} PagesArePrefix(vs: seq<Visit>, db: seq<Pair>)
    requires Paging(vs) && Unchanging(vs, db) && vs != []
    ensures |Returned(vs)| <= |db| && Returned(vs) == db[..|Returned(vs)|]
    ensures vs[|vs| - 1].page.next.Some? <==> |Returned(vs)| < |db|
    ensures vs[|vs| - 1].page.next.Some? ==> Returned(vs) != [] && CursorOf(vs, |vs|) == db[|Returned(vs)| - 1].key
    ensures db != [] ==> |vs| <= |Returned(vs)|
    ensures db == [] ==> |vs| == 1
  {
    hide PageOf, EndOf, Ordered;
    var n := |vs| - 1;
    assert GoodVisit(vs, n);
    var m := |Returned(vs[..n])|;
    assert vs[n].db == db;
    if n > 0 {
      PagingPrefix(vs, n);
      PagesArePrefix(vs[..n], db);
      assert vs[..n][n - 1] == vs[n - 1];
    }
    NextPiece(db, CursorOf(vs, n), vs[n].limit, m);
  }

  // ---- paging as text -----------------------------------------------------

  /** A request on the wire: the database then, the limit asked for, the encoded cursor sent, if any. */
  datatype Request = Request(db: seq<Pair>, limit: Option<nat>, raw: Option<string>)

  function LimitInForce(limit: Option<nat>): nat {
    LimitOf(if limit.Some? then Decimal(limit.value) else "")
  }

  /** The page a client reads out of the response text. */
  function PageRead(r: Request): Option<Page> {
    ReadScan(ScanReply(r.db, ScanQuery(r.limit, r.raw)).body)
  }

  /** The cursor the client holds before request i. */
  function CursorHeld(rs: seq<Request>, i: nat): string
    requires i <= |rs|
  {
    if i == 0 then "" else
    var p := PageRead(rs[i - 1]);
    if p.Some? && p.value.next.Some? then p.value.next.value else ""
  }

  ghost predicate GoodRequest(rs: seq<Request>, i: nat)
    requires i < |rs|
  {
    && Ordered(rs[i].db)
    && Sends(rs[i].raw, CursorHeld(rs, i))
    && (i > 0 ==> PageRead(rs[i - 1]).Some? && PageRead(rs[i - 1]).value.next.Some?)
  }

  /** A client that sends each cursor it reads back percent-encoded, in any encoding. */
  ghost predicate Conversation(rs: seq<Request>) {
    forall i :: 0 <= i < |rs| ==> GoodRequest(rs, i)
  }

  function Visits(rs: seq<Request>): seq<Visit> {
    seq(|rs|, i requires 0 <= i < |rs| =>
      Visit(rs[i].db, LimitInForce(rs[i].limit), PageRead(rs[i]).GetOr(Page([], None))))
  }

  lemma NothingDecoded()
    ensures Decoded("") == Some("")
  {
  }

  /** Through query text, response text, JSON and percent-encoding, the client reads exactly the page. */
  lemma PageOverText(db: seq<Pair>, limit: Option<nat>, raw: Option<string>, cursor: string)
    requires Sends(raw, cursor)
    ensures ScanReply(db, ScanQuery(limit, raw)).code == 200
    ensures PageRead(Request(db, limit, raw)) == Some(PageOf(db, cursor, LimitInForce(limit)))
  {
    hide Encodes, Param, Decoded, PageOf, ScanBody, ReadScan, LimitOf, Decimal;
    ScanParams(limit, raw, cursor);
    if raw.Some? { DecodeEncoded(raw.value, cursor); } else { NothingDecoded(); }
    ReadScanBody(PageOf(db, cursor, LimitInForce(limit)));
  }

  /**
   So every such conversation follows the pages of the database, and is a paging proper,
   with all that holds of one, when no cursor the client read was empty.
   */
  lemma ConversationIsPaging(rs: seq<Request>)
    requires Conversation(rs)
    ensures Follows(Visits(rs))
    ensures Paging(Visits(rs)) <==> forall i :: 0 < i < |rs| ==> CursorHeld(rs, i) != ""
    ensures forall i :: 0 <= i < |rs| ==> PageRead(rs[i]) == Some(Visits(rs)[i].page)
  {
    hide Sends, PageRead, PageOf, LimitOf, Ordered;
    var vs := Visits(rs);
    forall i | 0 <= i < |rs|
      ensures PageRead(rs[i]) == Some(vs[i].page) && vs[i].page == PageOf(rs[i].db, CursorHeld(rs, i), vs[i].limit)
    {
      assert GoodRequest(rs, i);
      PageOverText(rs[i].db, rs[i].limit, rs[i].raw, CursorHeld(rs, i));
    }
    forall i | 0 <= i < |rs| ensures GoodVisit(vs, i) {
      assert GoodRequest(rs, i);
      if i > 0 { assert PageRead(rs[i - 1]) == Some(vs[i - 1].page); }
    }
    forall i | 0 < i < |rs| ensures CursorHeld(rs, i) == CursorOf(vs, i) {
      assert PageRead(rs[i - 1]) == Some(vs[i - 1].page);
    }
  }

  // ---- empty cursors ------------------------------------------------------

  /** The one case in which a page hands out an empty cursor, which restarts the scan. */
  lemma EmptyCursor(db: seq<Pair>, after: string, limit: nat)
    requires Ordered(db) && limit >= 1
    ensures PageOf(db, after, limit).next == Some("") <==>
      after == "" && limit == 1 && |db| > 1 && db[0].key == ""
  {
    var e := EndOf(db, after, limit);
    assert 1 < e < |db| ==> Less(db[0].key, db[e - 1].key);
  }

  /** A page asked for with an empty cursor begins with the first record again. */
  lemma EmptyCursorRestarts(db: seq<Pair>, after: string, limit: nat, again: nat)
    requires Ordered(db) && limit >= 1 && again >= 1 && PageOf(db, after, limit).next == Some("")
    ensures |db| > 1 && PageOf(db, after, limit).records == [db[0]]
    ensures PageOf(db, "", again).records != [] && PageOf(db, "", again).records[0] == db[0]
  {
    EmptyCursor(db, after, limit);
  }

  lemma {:induction false} ReturnedPrefix(vs: seq<Visit>, n: nat)
    requires n <= |vs|
    ensures Returned(vs[..n]) <= Returned(vs)
  {
    if n < |vs| {
      ReturnedPrefix(vs[..|vs| - 1], n);
      assert vs[..|vs| - 1][..n] == vs[..n];
    } else {
      assert vs[..n] == vs;
    }
  }

  lemma TwoLastPages(vs: seq<Visit>, n: nat)
    requires n + 2 <= |vs|
    ensures Returned(vs[..n + 2]) == Returned(vs[..n]) + vs[n].page.records + vs[n + 1].page.records
  {
    assert vs[..n + 2][..n + 1] == vs[..n + 1] && vs[..n + 1][..n] == vs[..n];
  }

  /** An empty cursor sent to a database with an empty key brings that key a second time. */
  lemma RestartRepeats(vs: seq<Visit>, i: nat)
    requires Follows(vs) && 0 < i < |vs| && CursorOf(vs, i) == "" && Get(vs[i].db, "").Some?
    ensures !Ordered(Returned(vs))
  {
    hide PageOf, Returned, Ordered, Get;
    assert GoodVisit(vs, i - 1) && GoodVisit(vs, i);
    EmptyCursor(vs[i - 1].db, CursorOf(vs, i - 1), vs[i - 1].limit);
    EmptyCursorRestarts(vs[i - 1].db, CursorOf(vs, i - 1), vs[i - 1].limit, vs[i].limit);
    EmptyKeyFirst(vs[i].db);
    FirstPage(vs[i].db, vs[i].limit);
    TwoLastPages(vs, i - 1);
    ReturnedPrefix(vs, i + 1);
    TwoEmptyKeys(Returned(vs[..i - 1]), vs[i - 1].page.records, vs[i].page.records, Returned(vs));
  }

  lemma TwoEmptyKeys(a: seq<Pair>, b: seq<Pair>, c: seq<Pair>, all: seq<Pair>)
    requires a + b + c <= all && |b| == 1 && b[0].key == "" && c != [] && c[0].key == ""
    ensures !Ordered(all)
  {
    assert all[|a|] == b[0] && all[|a| + 1] == c[0];
    LessIrreflexive("");
  }

  lemma FirstPage(db: seq<Pair>, limit: nat)
    requires Ordered(db) && db != [] && limit >= 1
    ensures PageOf(db, "", limit).records != [] && PageOf(db, "", limit).records[0] == db[0]
  {
  }

  /** The empty key comes before all others. */
  lemma EmptyKeyFirst(db: seq<Pair>)
    requires Ordered(db)
    ensures Get(db, "").Some? <==> db != [] && db[0].key == ""
  {
    GetIsMember(db, "");
    if Get(db, "").Some? {
      var j :| 0 <= j < |db| && db[j] == Pair("", Get(db, "").value);
      forall i | 0 < i < |db| ensures db[i].key != "" {
        assert Less(db[0].key, db[i].key);
      }
    } else if db != [] {
      assert Pair(db[0].key, db[0].value) in db;
    }
  }

  /**
   Whatever changes between the pages, following the cursors returns the keys in strictly
   ascending order exactly when no empty cursor goes to a database that holds an empty key.
   */
  lemma AscendExactly(vs: seq<Visit>)
    requires Follows(vs)
    ensures Ordered(Returned(vs)) <==> NoneRestarts(vs)
  {
    hide PageOf, Returned, Follows, Ordered, Get;
    if NoneRestarts(vs) {
      PagesAscend(vs);
    } else {
      var i :| 0 < i < |vs| && CursorOf(vs, i) == "" && Get(vs[i].db, "").Some?;
      RestartRepeats(vs, i);
    }
  }

  /** On a fixed database that is when no cursor sent back is empty. */
  lemma AscendOnFixed(vs: seq<Visit>, db: seq<Pair>)
    requires Follows(vs) && Unchanging(vs, db)
    ensures Ordered(Returned(vs)) <==> NoEmptyCursor(vs)
  {
    hide PageOf, Returned, Ordered, Get;
    AscendExactly(vs);
    forall i | 0 < i < |vs| && CursorOf(vs, i) == "" ensures Get(vs[i].db, "").Some? {
      assert GoodVisit(vs, i - 1) && GoodVisit(vs, i);
      EmptyCursor(db, CursorOf(vs, i - 1), vs[i - 1].limit);
      EmptyKeyFirst(db);
    }
  }

  /** Following the cursors of a fixed database to the end yields exactly the database, when no cursor sent back is empty. */
  lemma {:induction false} PagesExact(vs: seq<Visit>, db: seq<Pair>)
    requires Follows(vs) && Unchanging(vs, db) && Complete(vs)
    ensures Returned(vs) == db <==> NoEmptyCursor(vs)
    ensures NoEmptyCursor(vs) ==> |vs| <= |db| + 1
  {
    assert GoodVisit(vs, 0);
    hide Follows, Ordered, PageOf, Returned;
    AscendOnFixed(vs, db);
    if NoEmptyCursor(vs) {
      PagesArePrefix(vs, db);
      assert db[..|db|] == db;
    }
  }
}
