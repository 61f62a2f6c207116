/**
 The bulk loader: it cuts the key range 0..n-1 into consecutive files of sorted records
 and loads the files into the database ten at a time.
 */
module SstGen {
  import opened Text
  import opened DecimalOrder
  import FillRandom

  /** `long long` */
  newtype int64 = x: int | -0x8000_0000_0000_0000 <= x < 0x8000_0000_0000_0000

  const INT64_MAX := 0x7FFF_FFFF_FFFF_FFFF

  datatype Record = Record(key: string, value: seq<bv8>)

  /** An SST file on disk. */
  datatype Sst = Sst(path: string, records: seq<Record>)

  function Key(k: nat): string { Label("stress:", k, 16, "") }

  function Path(dir: string, i: nat): string { Label(dir + "/bulk_", i, 6, ".sst") }

  function Value(k: nat, size: nat): seq<bv8> {
    seq(size, i requires 0 <= i => FillRandom.Top(FillRandom.State(k, i + 1)))
  }

  // ---- what the files should hold ------------------------------------------

  /** The records of keys lo..hi-1. */
  function Records(lo: nat, hi: nat, size: nat): seq<Record> {
    if hi <= lo then [] else Records(lo, hi - 1, size) + [Record(Key(hi - 1), Value(hi - 1, size))]
  }

  function Min(a: int, b: int): int { if a <= b then a else b }

  function Natural(n: int): nat { if n < 0 then 0 else n }

  /** ceil(n / per) */
  function FileCount(n: nat, per: nat): nat
    requires per > 0
  {
    if n == 0 then 0 else (n - 1) / per + 1
  }

  /** File i holds its share of the range. */
  function FileAt(i: nat, n: nat, per: nat, size: nat, dir: string): Sst {
    Sst(Path(dir, i), Records(i * per, Min((i + 1) * per, n), size))
  }

  function Files(count: nat, n: nat, per: nat, size: nat, dir: string): (fs: seq<Sst>)
    ensures |fs| == count
    ensures forall i :: 0 <= i < count ==> fs[i] == FileAt(i, n, per, size, dir)
  {
    if count == 0 then [] else Files(count - 1, n, per, size, dir) + [FileAt(count - 1, n, per, size, dir)]
  }

  function AllFiles(n: nat, per: nat, size: nat, dir: string): (fs: seq<Sst>)
    requires per > 0
  {
    Files(FileCount(n, per), n, per, size, dir)
  }

  /** Everything in some files, in file order. */
  function Contents(files: seq<Sst>): seq<Record> {
    if files == [] then [] else Contents(files[..|files| - 1]) + files[|files| - 1].records
  }

  // ---- generation ----------------------------------------------------------

  /** The last value of `base` must still be a `long long`. */
  predicate Fits(n: nat, per: nat)
    requires per > 0
  {
    FileCount(n, per) * per <= INT64_MAX
  }

  lemma Times(a: nat, b: nat, per: nat)
    ensures a <= b ==> a * per <= b * per
    ensures (a + 1) * per == a * per + per
  {
    if a <= b { assert (b - a) * per >= 0; }
  }

  lemma Share(n: nat, per: nat) returns (q: nat)
    requires per > 0
    ensures q == n / per && q * per <= n < q * per + per
  {
    q := n / per;
    assert n == q * per + n % per;
  }

  lemma CountBounds(n: nat, per: nat, i: nat)
    requires per > 0
    ensures i < FileCount(n, per) <==> i * per < n
    ensures i < FileCount(n, per) ==> (i + 1) * per <= FileCount(n, per) * per
    ensures (i + 1) * per == i * per + per
  {
    Times(i, i, per);
    if n > 0 {
      var q := Share(n - 1, per);
      Times(q, i, per);
      Times(i, q, per);
      Times(q + 1, i, per);
      Times(i + 1, q + 1, per);
    }
  }

  /** Half the range of a `long long` is always small enough. */
  lemma FitsHalf(n: nat, per: nat)
    requires 0 < per <= INT64_MAX && n <= 0x4000_0000_0000_0000
    ensures Fits(n, per)
  {
    if n > 0 {
      var q := Share(n - 1, per);
      Times(q, q, per);
      if q > 0 { Times(1, q, per); }
    }
  }

  /** One file's records, each value built in the same buffer. */
  method WriteRecords(base: int64, end: int64, value: array<bv8>) returns (records: seq<Record>)
    requires 0 <= base <= end
    modifies value
    ensures records == Records(base as int, end as int, value.Length)
  {
    hide Key;
    records := [];
    var k := base;
    while k < end
      invariant base <= k <= end
      invariant records == Records(base as int, k as int, value.Length)
    {
      FillRandom.Fill(k as nat, value);
      assert value[..] == Value(k as nat, value.Length);
      records := records + [Record(Key(k as nat), value[..])];
      k := k + 1;
    }
  }

  method Generate(numKeys: int64, size: nat, dir: string, perSst: int64) returns (files: seq<Sst>, totalWritten: int64)
    requires perSst > 0 && Fits(Natural(numKeys as int), perSst as int)
    ensures totalWritten as int == Natural(numKeys as int)
    ensures files == AllFiles(Natural(numKeys as int), perSst as int, size, dir)
  {
    hide Path, Records, FileCount;
    var value := new bv8[size];
    totalWritten, files := 0, [];
    var sstCount: int64 := 0;
    var base: int64 := 0;
    ghost var n := Natural(numKeys as int);
    while base < numKeys
      modifies value
      invariant 0 <= base && base as int == sstCount as int * perSst as int
      invariant 0 <= sstCount as int <= FileCount(n, perSst as int)
      invariant totalWritten as int == Min(base as int, n)
      invariant files == Files(sstCount as int, n, perSst as int, size, dir)
      decreases n - base as int
    {
      CountBounds(n, perSst as int, sstCount as int);
      CountBounds(n, perSst as int, sstCount as int + 1);
      var end := if base + perSst < numKeys then base + perSst else numKeys;
      var path := Path(dir, sstCount as nat);
      sstCount := sstCount + 1;
      var records := WriteRecords(base, end, value);
      files := files + [Sst(path, records)];
      totalWritten := totalWritten + (end - base);
      base := base + perSst;
    }
    CountBounds(n, perSst as int, sstCount as int);
  }

  // ---- the files partition the keys ----------------------------------------

  lemma {:induction false} RecordsAppend(lo: nat, mid: nat, hi: nat, size: nat)
    requires lo <= mid <= hi
    ensures Records(lo, mid, size) + Records(mid, hi, size) == Records(lo, hi, size)
  {
    hide Key, Value;
    if mid == hi {
      assert Records(lo, mid, size) + [] == Records(lo, mid, size);
    } else {
      RecordsAppend(lo, mid, hi - 1, size);
      var last := [Record(Key(hi - 1), Value(hi - 1, size))];
      assert Records(lo, mid, size) + (Records(mid, hi - 1, size) + last) == Records(lo, mid, size) + Records(mid, hi - 1, size) + last;
    }
  }

  lemma {:induction false} RecordsAt(lo: nat, hi: nat, size: nat)
    requires lo <= hi
    ensures |Records(lo, hi, size)| == hi - lo
    ensures forall i :: 0 <= i < hi - lo ==> Records(lo, hi, size)[i] == Record(Key(lo + i), Value(lo + i, size))
  {
    hide Key, Value;
    if lo < hi { RecordsAt(lo, hi - 1, size); }
  }

  lemma ContentsSnoc(files: seq<Sst>, f: Sst)
    ensures Contents(files + [f]) == Contents(files) + f.records
  {
    assert (files + [f])[..|files|] == files;
  }

  /** How many keys the first `count` files take. */
  function Taken(count: nat, n: nat, per: nat): nat { Min(count * per, n) }

  lemma ShareOfFile(i: nat, n: nat, per: nat, size: nat, dir: string)
    requires per > 0 && i < FileCount(n, per)
    ensures FileAt(i, n, per, size, dir).records == Records(Taken(i, n, per), Taken(i + 1, n, per), size)
    ensures Taken(i, n, per) < Taken(i + 1, n, per) <= Taken(i, n, per) + per
  {
    hide Records, FileCount;
    CountBounds(n, per, i);
  }

  /** The first `count` files hold exactly the first count * per keys, in order. */
  lemma {:induction false} PrefixContents(count: nat, n: nat, per: nat, size: nat, dir: string)
    requires per > 0 && count <= FileCount(n, per)
    ensures Contents(Files(count, n, per, size, dir)) == Records(0, Taken(count, n, per), size)
  {
    if count == 0 {
      assert Taken(0, n, per) == 0;
    } else {
      hide Records, Contents, FileCount, Taken, FileAt;
      var fs := Files(count - 1, n, per, size, dir);
      var f := FileAt(count - 1, n, per, size, dir);
      assert Files(count, n, per, size, dir) == fs + [f];
      hide Files;
      ContentsSnoc(fs, f);
      PrefixContents(count - 1, n, per, size, dir);
      ShareOfFile(count - 1, n, per, size, dir);
      RecordsAppend(0, Taken(count - 1, n, per), Taken(count, n, per), size);
    }
  }

  /** The files together hold keys 0..n-1, each once, in order; there are ceil(n / per) of them and none is empty. */
  lemma Partition(n: nat, per: nat, size: nat, dir: string)
    requires per > 0
    ensures Contents(AllFiles(n, per, size, dir)) == Records(0, n, size)
    ensures |AllFiles(n, per, size, dir)| == FileCount(n, per)
    ensures forall i :: 0 <= i < FileCount(n, per) ==> 0 < |AllFiles(n, per, size, dir)[i].records| <= per
  {
    hide Records, Key, Path, Value, FileCount;
    var count := FileCount(n, per);
    PrefixContents(count, n, per, size, dir);
    CountBounds(n, per, count);
    forall i: nat | i < count ensures 0 < |AllFiles(n, per, size, dir)[i].records| <= per {
      ShareOfFile(i, n, per, size, dir);
      RecordsAt(Taken(i, n, per), Taken(i + 1, n, per), size);
    }
  }

  // ---- what a record holds --------------------------------------------------

  /** The value bytes of key k: each is the top byte of the state after it was stepped to. */
  ghost predicate BytesOf(k: nat, value: seq<bv8>) {
    forall i :: 0 <= i < |value| ==>
      var s := FillRandom.State(k, i + 1); ((value[i] as bv64) << 56) | (s & FillRandom.LOW56) == s
  }

  lemma ValueBytes(k: nat, size: nat)
    ensures |Value(k, size)| == size && BytesOf(k, Value(k, size))
  {
    forall i | 0 <= i < size ensures var s := FillRandom.State(k, i + 1); ((Value(k, size)[i] as bv64) << 56) | (s & FillRandom.LOW56) == s {
      FillRandom.TopBack(FillRandom.State(k, i + 1));
    }
  }

  /**
   In the generated files the record of key k stands in file k / per at place k % per; its
   key is the text "stress:" with k in digits after it, and its value has `size` bytes, each
   the top byte of its state.
   */
  lemma RecordOfKey(n: nat, per: nat, size: nat, dir: string, k: nat)
    requires per > 0 && k < n
    ensures k / per < |AllFiles(n, per, size, dir)| && k % per < |AllFiles(n, per, size, dir)[k / per].records|
    ensures var rec := AllFiles(n, per, size, dir)[k / per].records[k % per];
      && |rec.key| >= 23 && rec.key[..7] == "stress:" && AllDigits(rec.key[7..]) && NatOf(rec.key[7..]) == k
      && |rec.value| == size && BytesOf(k, rec.value)
  {
    hide Records, Label, Path, Value, FileCount, Padded, NatOf, BytesOf;
    var q := Share(k, per);
    CountBounds(n, per, q);
    assert k % per == k - q * per;
    ShareOfFile(q, n, per, size, dir);
    RecordsAt(Taken(q, n, per), Taken(q + 1, n, per), size);
    assert AllFiles(n, per, size, dir)[q].records[k % per] == Record(Key(k), Value(k, size));
    LabelText("stress:", k, 16, "");
    assert Key(k)[7..] == Key(k)[7..|Key(k)|];
    ValueBytes(k, size);
  }

  /** The path of file i: the directory, then "/bulk_", i in at least six digits, ".sst". */
  lemma PathText(dir: string, i: nat)
    ensures var (p, d) := (Path(dir, i), |dir| + 6); |p| >= d + 10 && p[..d] == dir + "/bulk_" && p[|p| - 4..] == ".sst"
    ensures var (p, d) := (Path(dir, i), |dir| + 6); AllDigits(p[d..|p| - 4]) && NatOf(p[d..|p| - 4]) == i
  {
    LabelText(dir + "/bulk_", i, 6, ".sst");
  }

  // ---- order ----------------------------------------------------------------

  /** Strictly ascending keys, as a file's writer and an ingest need them. */
  ghost predicate Ascending(rs: seq<Record>) {
    forall i, j :: 0 <= i < j < |rs| ==> Less(rs[i].key, rs[j].key)
  }

  /** Within and across the files the keys ascend bytewise exactly when there are at most 10^16 of them. */
  lemma AscendingExactly(n: nat, per: nat, size: nat, dir: string)
    requires per > 0
    ensures Ascending(Contents(AllFiles(n, per, size, dir))) <==> n <= 10_000_000_000_000_000
  {
    hide Less, Label, FileCount, AllFiles, Contents;
    Partition(n, per, size, dir);
    RecordsAt(0, n, size);
    LabelsAscendExactly("stress:", "", 16, n);
    PowersUsed();
    var rs := Records(0, n, size);
    assert LabelsAscend("stress:", "", 16, n) ==> Ascending(rs);
    if Ascending(rs) {
      forall a: nat, b: nat | a < b < n ensures Less(Label("stress:", a, 16, ""), Label("stress:", b, 16, "")) {
        assert Less(rs[a].key, rs[b].key);
      }
    }
  }

  // ---- the names sort back --------------------------------------------------

  function Paths(dir: string, count: nat): (ps: seq<string>)
    ensures |ps| == count && forall i :: 0 <= i < count ==> ps[i] == Path(dir, i)
  {
    if count == 0 then [] else Paths(dir, count - 1) + [Path(dir, count - 1)]
  }

  lemma PathInjective(dir: string, a: nat, b: nat)
    ensures Path(dir, a) == Path(dir, b) ==> a == b
  {
    if Path(dir, a) == Path(dir, b) { LabelInjective(dir + "/bulk_", ".sst", 6, a, b); }
  }

  /** What `std::sort` leaves behind. */
  ghost predicate Sorted(names: seq<string>) {
    forall i, j :: 0 <= i < j < |names| ==> !Less(names[j], names[i])
  }

  ghost predicate StrictlyAscending(names: seq<string>) {
    forall i, j :: 0 <= i < j < |names| ==> Less(names[i], names[j])
  }

  lemma SameFirst(names: seq<string>, sorted: seq<string>)
    requires names != [] && sorted != [] && StrictlyAscending(names) && Sorted(sorted)
    requires multiset(sorted) == multiset(names)
    ensures sorted[0] == names[0]
  {
    hide Less;
    assert sorted[0] in multiset(names) && names[0] in multiset(sorted);
    var i, j :| 0 <= i < |names| && 0 <= j < |sorted| && names[i] == sorted[0] && sorted[j] == names[0];
    LessIrreflexive(names[0]);
  }

  lemma WithoutFirst(names: seq<string>)
    requires names != []
    ensures multiset(names[1..]) == multiset(names) - multiset{names[0]} && names == [names[0]] + names[1..]
  {
    assert names == [names[0]] + names[1..];
  }

  /** A strictly ascending list is the only sorted arrangement of its elements. */
  lemma {:induction false} OneArrangement(names: seq<string>, sorted: seq<string>)
    requires StrictlyAscending(names) && Sorted(sorted)
    requires multiset(sorted) == multiset(names)
    ensures sorted == names
  {
    hide Less;
    assert |multiset(sorted)| == |sorted| && |multiset(names)| == |names|;
    if names != [] {
      SameFirst(names, sorted);
      WithoutFirst(names);
      WithoutFirst(sorted);
      OneArrangement(names[1..], sorted[1..]);
    }
  }

  /**
   Listing a directory of generated files in any order and sorting the paths gives back
   the order of generation exactly when there are at most a million files.
   */
  lemma SortRestores(dir: string, count: nat, sorted: seq<string>)
    requires multiset(sorted) == multiset(Paths(dir, count)) && Sorted(sorted)
    ensures sorted == Paths(dir, count) <==> count <= 1_000_000
  {
    hide Less, Label;
    PowersUsed();
    LabelsAscendExactly(dir + "/bulk_", ".sst", 6, count);
    var ps := Paths(dir, count);
    if count <= 1_000_000 {
      OneArrangement(ps, sorted);
    } else if sorted == ps {
      forall a: nat, b: nat | a < b < count
        ensures Less(Label(dir + "/bulk_", a, 6, ".sst"), Label(dir + "/bulk_", b, 6, ".sst"))
      {
        LessTotal(ps[a], ps[b]);
        PathInjective(dir, a, b);
        assert !Less(sorted[b], sorted[a]);
      }
    }
  }

  // ---- ingestion ------------------------------------------------------------

  const BATCH: nat := 10

  /** Batch b of a file list. */
  function Batch<T>(files: seq<T>, b: nat): seq<T>
    requires b * BATCH <= |files|
  {
    files[b * BATCH..Min(b * BATCH + BATCH, |files|)]
  }

  /** The first `count` batches. */
  function Batches<T>(files: seq<T>, count: nat): (bs: seq<seq<T>>)
    requires count <= FileCount(|files|, BATCH)
    ensures |bs| == count && forall b :: 0 <= b < count ==> bs[b] == Batch(files, b)
  {
    if count == 0 then [] else Batches(files, count - 1) + [Batch(files, count - 1)]
  }

  function Flat<T>(xss: seq<seq<T>>): seq<T> {
    if xss == [] then [] else Flat(xss[..|xss| - 1]) + xss[|xss| - 1]
  }

  /**
   Load the files batch by batch; `accepts(k)` is the answer to the k-th load call. After
   the first refusal nothing more is attempted.
   */
  method Ingest<T>(files: seq<T>, accepts: nat -> bool) returns (attempted: seq<seq<T>>, loaded: seq<seq<T>>, ok: bool)
    ensures |loaded| <= FileCount(|files|, BATCH) && loaded == Batches(files, |loaded|)
    ensures forall k :: 0 <= k < |loaded| ==> accepts(k)
    ensures ok <==> |loaded| == FileCount(|files|, BATCH)
    ensures ok ==> attempted == loaded
    ensures !ok ==> !accepts(|loaded|) && attempted == Batches(files, |loaded| + 1)
  {
    var offsets := [];
    var off := 0;
    while off < |files|
      invariant off == |offsets| * BATCH
      invariant |offsets| <= FileCount(|files|, BATCH)
      invariant forall k :: 0 <= k < |offsets| ==> offsets[k] == k * BATCH
    {
      offsets := offsets + [off];
      off := off + BATCH;
    }
    attempted, loaded, ok := [], [], true;
    for i := 0 to |offsets|
      invariant |loaded| <= i && loaded == Batches(files, |loaded|)
      invariant forall k :: 0 <= k < |loaded| ==> accepts(k)
      invariant ok <==> |loaded| == i
      invariant ok ==> attempted == loaded
      invariant !ok ==> |loaded| < |offsets| && !accepts(|loaded|) && attempted == Batches(files, |loaded| + 1)
    {
      if ok {
        var batch := files[offsets[i]..Min(offsets[i] + BATCH, |files|)];
        attempted := attempted + [batch];
        ok := accepts(i);
        if ok { loaded := loaded + [batch]; }
      }
    }
  }

  lemma BatchExtends<T>(files: seq<T>, b: nat)
    requires b < FileCount(|files|, BATCH)
    ensures b * BATCH < |files| && 0 < |Batch(files, b)| <= BATCH
    ensures files[..Min(b * BATCH, |files|)] + Batch(files, b) == files[..Min((b + 1) * BATCH, |files|)]
  {
    CountBounds(|files|, BATCH, b);
  }

  /** The batches cover the list in order, each file once; none is empty and none holds more than ten files. */
  lemma {:induction false} BatchesCover<T>(files: seq<T>, count: nat)
    requires count <= FileCount(|files|, BATCH)
    ensures Flat(Batches(files, count)) == files[..Min(count * BATCH, |files|)]
    ensures forall b :: 0 <= b < count ==> 0 < |Batches(files, count)[b]| <= BATCH
  {
    if count > 0 {
      BatchesCover(files, count - 1);
      BatchExtends(files, count - 1);
      hide Batch, FileCount;
      assert Batches(files, count)[..count - 1] == Batches(files, count - 1);
    }
  }

  lemma PrefixEnd(n: nat, per: nat, m: nat)
    requires per > 0
    ensures Taken(Min(m, FileCount(n, per)), n, per) == Taken(m, n, per)
  {
    CountBounds(n, per, FileCount(n, per));
    Times(FileCount(n, per), m, per);
  }

  /**
   However far an ingest gets, the database has received exactly a prefix of the key range:
   after b batches, what the first 10 * b files take, and nothing else.
   */
  lemma LoadedIsPrefix(n: nat, per: nat, size: nat, dir: string, b: nat)
    requires per > 0 && b <= FileCount(FileCount(n, per), BATCH)
    ensures Contents(Flat(Batches(AllFiles(n, per, size, dir), b))) == Records(0, Taken(b * BATCH, n, per), size)
  {
    hide Key, Path, Value, Records, Contents, FileCount, Flat;
    var files := AllFiles(n, per, size, dir);
    var count: nat := Min(b * BATCH, |files|);
    BatchesCover(files, b);
    assert files[..count] == Files(count, n, per, size, dir);
    PrefixContents(count, n, per, size, dir);
    PrefixEnd(n, per, b * BATCH);
  }
}
