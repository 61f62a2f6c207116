/**
 The database as an ordered map, and the data requests of the service on it.
 RocksDB itself is the sorted sequence of its pairs; an iterator is an index into it.
 Each handler is a method on the service's fields, tied to a function of the database
 and the request text; the theorems about requests are proved of those functions.
 */
module Store {
  import opened Text
  import opened Json
  import opened Fields
  import opened Query

  // ---- the ordered map ----------------------------------------------------

  /** Keys in strictly ascending byte order. */
  ghost predicate Ordered(db: seq<Pair>) {
    forall i, j :: 0 <= i < j < |db| ==> Less(db[i].key, db[j].key)
  }

  /** Index of the first pair whose key is not below `key`, where `Seek` puts an iterator. */
  function Seek(db: seq<Pair>, key: string): (i: nat)
    ensures i <= |db|
    ensures forall j :: 0 <= j < i ==> Less(db[j].key, key)
    ensures i < |db| ==> !Less(db[i].key, key)
  {
    if db != [] && Less(db[0].key, key) then 1 + Seek(db[1..], key) else 0
  }

  function Get(db: seq<Pair>, key: string): Option<string> {
    var i := Seek(db, key);
    if i < |db| && db[i].key == key then Some(db[i].value) else None
  }

  function Put(db: seq<Pair>, key: string, value: string): seq<Pair> {
    var i := Seek(db, key);
    if i < |db| && db[i].key == key then db[i := Pair(key, value)]
    else db[..i] + [Pair(key, value)] + db[i..]
  }

  /** The puts of a write batch, in order. */
  function PutAll(db: seq<Pair>, ps: seq<Pair>): seq<Pair>
    decreases |ps|
  {
    if ps == [] then db else PutAll(Put(db, ps[0].key, ps[0].value), ps[1..])
  }

  lemma SeekSplits(db: seq<Pair>, key: string, j: nat)
    requires Ordered(db) && j < |db|
    ensures j < Seek(db, key) ==> Less(db[j].key, key)
    ensures db[j].key == key ==> j == Seek(db, key)
    ensures j >= Seek(db, key) && db[j].key != key ==> Less(key, db[j].key)
  {
    var i := Seek(db, key);
    LessIrreflexive(key);
    if j > i {
      LessTotal(db[i].key, key);
      if Less(key, db[i].key) { LessTransitive(key, db[i].key, db[j].key); }
    } else if j == i {
      LessTotal(db[i].key, key);
    }
  }

  /** A lookup finds exactly the pairs of the database. */
  lemma GetIsMember(db: seq<Pair>, key: string)
    requires Ordered(db)
    ensures forall v :: Get(db, key) == Some(v) <==> Pair(key, v) in db
  {
    forall v | Pair(key, v) in db ensures Get(db, key) == Some(v) {
      var j :| 0 <= j < |db| && db[j] == Pair(key, v);
      SeekSplits(db, key, j);
    }
  }

  lemma Around(db: seq<Pair>, key: string)
    requires Ordered(db)
    ensures forall j {:trigger db[j]} :: 0 <= j < |db| && j < Seek(db, key) ==> Less(db[j].key, key) && db[j].key != key
    ensures forall j {:trigger db[j]} :: 0 <= j < |db| && db[j].key == key ==> j == Seek(db, key)
    ensures forall j {:trigger db[j]} :: Seek(db, key) <= j < |db| && db[j].key != key ==> Less(key, db[j].key)
  {
    hide Less, Seek;
    LessIrreflexive(key);
    forall j | 0 <= j < |db|
      ensures j < Seek(db, key) ==> Less(db[j].key, key) && db[j].key != key
      ensures db[j].key == key ==> j == Seek(db, key)
      ensures j >= Seek(db, key) && db[j].key != key ==> Less(key, db[j].key)
    {
      SeekSplits(db, key, j);
    }
  }

  /** A put keeps the order, sets its own key and leaves every other key alone. */
  lemma PutIsUpdate(db: seq<Pair>, key: string, value: string)
    requires Ordered(db)
    ensures Ordered(Put(db, key, value))
    ensures forall p :: p in Put(db, key, value) <==> p == Pair(key, value) || (p in db && p.key != key)
  {
    hide Less, Seek;
    var i := Seek(db, key);
    var db' := Put(db, key, value);
    Around(db, key);
    forall p | p in db && p.key != key ensures p in db' {
      var j :| 0 <= j < |db| && db[j] == p;
      assert db'[if |db'| == |db| || j < i then j else j + 1] == p;
    }
    assert db'[i] == Pair(key, value);
  }

  lemma GetAfterPut(db: seq<Pair>, key: string, value: string, other: string)
    requires Ordered(db)
    ensures Ordered(Put(db, key, value))
    ensures Get(Put(db, key, value), other) == if other == key then Some(value) else Get(db, other)
  {
    hide Get, Put;
    PutIsUpdate(db, key, value);
    GetIsMember(db, other);
    GetIsMember(Put(db, key, value), other);
    var (a, b) := (Get(Put(db, key, value), other), Get(db, other));
    if other != key {
      assert forall v :: a == Some(v) <==> b == Some(v);
      if a.Some? { assert b == Some(a.value); }
      if b.Some? { assert a == Some(b.value); }
    }
  }

  /** A batch keeps the order and leaves every key it does not name alone. */
  lemma {:induction false} PutAllKeeps(db: seq<Pair>, ps: seq<Pair>, key: string)
    requires Ordered(db)
    ensures Ordered(PutAll(db, ps))
    ensures (forall i :: 0 <= i < |ps| ==> ps[i].key != key) ==> Get(PutAll(db, ps), key) == Get(db, key)
    decreases |ps|
  {
    hide Put, Get, Ordered;
    if ps != [] {
      GetAfterPut(db, ps[0].key, ps[0].value, key);
      PutAllKeeps(Put(db, ps[0].key, ps[0].value), ps[1..], key);
      assert forall i :: 0 <= i < |ps[1..]| ==> ps[1..][i] == ps[i + 1];
    }
  }

  /** And gives every key it names the last value it has for it. */
  lemma {:induction false} PutAllGets(db: seq<Pair>, ps: seq<Pair>, key: string, i: nat)
    requires Ordered(db) && i < |ps| && ps[i].key == key && forall j :: i < j < |ps| ==> ps[j].key != key
    ensures Ordered(PutAll(db, ps)) && Get(PutAll(db, ps), key) == Some(ps[i].value)
    decreases |ps|
  {
    hide Put, Get, Ordered;
    var rest := ps[1..];
    assert forall j :: 0 <= j < |rest| ==> rest[j] == ps[j + 1];
    GetAfterPut(db, ps[0].key, ps[0].value, key);
    if i == 0 {
      PutAllKeeps(Put(db, ps[0].key, ps[0].value), rest, key);
    } else {
      PutAllGets(Put(db, ps[0].key, ps[0].value), rest, key, i - 1);
    }
  }

  // ---- replies ------------------------------------------------------------

  /** The status given to http_resp, and the JSON body. */
  datatype Reply = Reply(code: int, body: string)

  function Failure(code: int, message: string): Reply {
    Reply(code, "{\"error\":\"" + Escaped(message) + "\"}")
  }

  const OK := Reply(200, "{\"status\":\"ok\"}")

  function GetReply(db: seq<Pair>, query: string): Reply {
    var raw := Param(query, "key");
    if raw.None? then Failure(400, "missing key") else
    var key := Decoded(raw.value);
    if key.None? then Failure(500, "internal") else
    var v := Get(db, key.value);
    if v.Some? then Reply(200, Record(key.value, v.value)) else Failure(404, "not found")
  }

  function PutReply(body: string): Reply {
    if Field(body, "key") == "" then Failure(400, "missing key") else OK
  }

  function PutEffect(db: seq<Pair>, body: string): seq<Pair> {
    var k := Field(body, "key");
    if k == "" then db else Put(db, k, Field(body, "value"))
  }

  function BatchReply(body: string): Reply {
    var n := |ScanPairs(body, 0)|;
    if n > MAX_PAIRS then Failure(400, "batch exceeds 1000 pairs")
    else if n == 0 then Failure(400, "no pairs found")
    else Reply(200, "{\"status\":\"ok\",\"written\":" + Decimal(n) + "}")
  }

  function BatchEffect(db: seq<Pair>, body: string): seq<Pair> {
    if |ScanPairs(body, 0)| > MAX_PAIRS then db else PutAll(db, ScanPairs(body, 0))
  }

  // ---- scanning -----------------------------------------------------------

  /** Where a scan starts: the first pair, or the first one past a non-empty cursor. */
  function StartOf(db: seq<Pair>, after: string): (i: nat)
    ensures i <= |db|
  {
    if after == "" then 0 else
    var i := Seek(db, after);
    if i < |db| && db[i].key == after then i + 1 else i
  }

  function EndOf(db: seq<Pair>, after: string, limit: nat): (e: nat)
    ensures StartOf(db, after) <= e <= |db|
  {
    if StartOf(db, after) + limit < |db| then StartOf(db, after) + limit else |db|
  }

  /** One page: at most `limit` pairs, and its last key as cursor when pairs remain. */
  function PageOf(db: seq<Pair>, after: string, limit: nat): Page
    requires limit >= 1
  {
    var e := EndOf(db, after, limit);
    Page(db[StartOf(db, after)..e], if e < |db| then Some(db[e - 1].key) else None)
  }

  function ParamOr(query: string, name: string): string {
    Param(query, name).GetOr("")
  }

  function ScanReply(db: seq<Pair>, query: string): Reply {
    var after := Decoded(ParamOr(query, "after"));
    if after.None? then Failure(500, "internal")
    else Reply(200, ScanBody(PageOf(db, after.value, LimitOf(ParamOr(query, "limit")))))
  }

  lemma {:induction false} RecordsSnoc(ps: seq<Pair>, p: Pair)
    ensures Records(ps + [p]) == (if ps == [] then "" else Records(ps) + ",") + Record(p.key, p.value)
  {
    hide Record;
    if ps == [] {
      assert ps + [p] == [p];
    } else {
      RecordsSnoc(ps[1..], p);
      assert (ps + [p])[1..] == ps[1..] + [p];
    }
  }

  // ---- the service --------------------------------------------------------

  /** The open database and the mode the process was started with. */
  class Service {
    var db: seq<Pair>
    const readwrite: bool

    constructor (db: seq<Pair>, readwrite: bool)
      ensures this.db == db && this.readwrite == readwrite
    {
      this.db := db;
      this.readwrite := readwrite;
    }

    method HandleGet(query: string) returns (r: Reply)
      ensures r == GetReply(db, query)
    {
      var raw := Param(query, "key");
      if raw.None? { return Failure(400, "missing key"); }
      var key := Decode(raw.value);
      if key.None? { return Failure(500, "internal"); }
      var v := Get(db, key.value);
      if v.Some? { return Reply(200, Record(key.value, v.value)); }
      return Failure(404, "not found");
    }

    method HandlePut(body: string) returns (r: Reply)
      modifies this`db
      ensures readwrite ==> r == PutReply(body) && db == PutEffect(old(db), body)
      ensures !readwrite ==> r == Failure(403, "read-only instance") && db == old(db)
    {
      if !readwrite { return Failure(403, "read-only instance"); }
      var k := ExtractField(body, "key");
      var v := ExtractField(body, "value");
      if k == "" { return Failure(400, "missing key"); }
      db := Put(db, k, v);
      return OK;
    }

    method HandleBatchPut(body: string) returns (r: Reply)
      modifies this`db
      ensures readwrite ==> r == BatchReply(body) && db == BatchEffect(old(db), body)
      ensures !readwrite ==> r == Failure(403, "read-only instance") && db == old(db)
    {
      hide Record, ScanPairs, Put, Decimal, Escaped;
      if !readwrite { return Failure(403, "read-only instance"); }
      var batch, tooMany := ScanBatch(body);
      if tooMany { return Failure(400, "batch exceeds 1000 pairs"); }
      if batch == [] { return Failure(400, "no pairs found"); }
      for i := 0 to |batch|
        invariant PutAll(db, batch[i..]) == PutAll(old(db), batch)
      {
        db := Put(db, batch[i].key, batch[i].value);
        assert batch[i..][1..] == batch[i + 1..];
      }
      return Reply(200, "{\"status\":\"ok\",\"written\":" + Decimal(|batch|) + "}");
    }

    /** The iterator loop of a scan, printing records as it goes. */
    method PrintRecords(start: nat, limit: nat, head: string) returns (out: string, it: nat, last: string)
      requires start <= |db|
      ensures it == if start + limit < |db| then start + limit else |db|
      ensures out == head + Records(db[start..it])
      ensures start < it ==> last == db[it - 1].key
    {
      hide Record, Records;
      var first, n := true, 0;
      out, it, last := head, start, "";
      NoRecords();
      assert db[start..start] == [] && head + "" == head;
      while it < |db| && n < limit
        invariant start <= it <= |db| && n == it - start <= limit && first == (n == 0)
        invariant out == head + Records(db[start..it])
        invariant n > 0 ==> last == db[it - 1].key
      {
        RecordsSnoc(db[start..it], db[it]);
        assert db[start..it + 1] == db[start..it] + [db[it]];
        if !first { out := out + ","; }
        last := db[it].key;
        out := out + Record(last, db[it].value);
        first := false;
        n := n + 1;
        it := it + 1;
      }
    }

    method HandleScan(query: string) returns (r: Reply)
      ensures r == ScanReply(db, query)
    {
      hide Records, Escaped, Param, Seek, Decoded, LimitOf, Ending, Record;
      var limit := LimitOf(ParamOr(query, "limit"));
      var after := Decode(ParamOr(query, "after"));
      if after.None? { return Failure(500, "internal"); }
      var start := 0;
      if after.value != "" {
        start := Seek(db, after.value);
        if start < |db| && db[start].key == after.value { start := start + 1; }
      }
      assert start == StartOf(db, after.value);
      hide StartOf;
      var out, it, last := PrintRecords(start, limit, "{\"records\":[");
      assert it == EndOf(db, after.value, limit);
      hide EndOf;
      out := PrintEnding(out + "]", it < |db|, last);
      return Reply(200, out);
    }

    /** The cursor, when records remain, and the closing brace. */
    method PrintEnding(head: string, more: bool, last: string) returns (out: string)
      ensures out == head + Ending(if more then Some(last) else None)
    {
      hide Escaped;
      out := head;
      if more {
        var cursor := Escape(last);
        out := out + ",\"next\":\"" + cursor + "\"";
      }
      out := out + "}";
    }
  }

  lemma NoRecords()
    ensures Records([]) == ""
  {
  }
}
