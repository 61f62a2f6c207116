/**
 When the watcher's main loop lets pending nodes join: at once while every configured
 node is live, and otherwise only after departed ("stale") entries have blocked joins
 for two minutes. Times are seconds since the epoch.
 */
module JoinGate {

  const STALE_FORCE_SECS := 120

  /** What one pass sees: its time, whether conf holds a stale entry, whether a node asks to join. */
  datatype Tick = Tick(now: int, stale: bool, pending: bool)

  /** STALE_SINCE after a pass. */
  function SinceAfter(since: int, t: Tick): int {
    if !t.stale then 0 else if since == 0 then t.now else since
  }

  /** The pass runs add_new_nodes. */
  predicate Adds(since: int, t: Tick) {
    !t.stale || (t.pending && t.now - SinceAfter(since, t) >= STALE_FORCE_SECS)
  }

  /** The gate of the main loop, as the loop body computes it. */
  method Gate(since: int, t: Tick) returns (since': int, add: bool)
    ensures since' == SinceAfter(since, t) && add == Adds(since, t)
  {
    since', add := since, false;
    if !t.stale {
      since' := 0;
      add := true;
    } else {
      if since' == 0 { since' := t.now; }
      if t.pending && t.now - since' >= STALE_FORCE_SECS { add := true; }
    }
  }

  // ---- over a whole run ---------------------------------------------------

  /** STALE_SINCE before pass i; it starts at 0. */
  function Since(ts: seq<Tick>, i: nat): int
    requires i <= |ts|
  {
    if i == 0 then 0 else SinceAfter(Since(ts, i - 1), ts[i - 1])
  }

  predicate Attempts(ts: seq<Tick>, i: nat)
    requires i < |ts|
  {
    Adds(Since(ts, i), ts[i])
  }

  /** Clock readings are positive and never go back. */
  ghost predicate Clocked(ts: seq<Tick>) {
    && (forall i :: 0 <= i < |ts| ==> ts[i].now > 0)
    && (forall i, j :: 0 <= i <= j < |ts| ==> ts[i].now <= ts[j].now)
  }

  /** Pass f is the first stale pass after the last clean one, seen from pass i. */
  predicate FirstStale(ts: seq<Tick>, f: nat, i: nat)
    requires f <= i < |ts|
  {
    (forall k :: f <= k <= i ==> ts[k].stale) && (f > 0 ==> !ts[f - 1].stale)
  }

  lemma {:induction false} SinceIsFirstStale(ts: seq<Tick>, f: nat, i: nat)
    requires Clocked(ts) && f <= i < |ts| && FirstStale(ts, f, i)
    ensures Since(ts, i + 1) == ts[f].now
  {
    if f < i { SinceIsFirstStale(ts, f, i - 1); }
  }

  /**
   A clean pass always attempts; a stale one exactly when a node is pending and two
   minutes have passed since the first stale pass after the last clean one.
   */
  lemma AttemptExactly(ts: seq<Tick>, f: nat, i: nat)
    requires Clocked(ts) && f <= i < |ts|
    ensures !ts[i].stale ==> Attempts(ts, i)
    ensures FirstStale(ts, f, i) ==>
      (Attempts(ts, i) <==> ts[i].pending && ts[i].now - ts[f].now >= STALE_FORCE_SECS)
  {
    if FirstStale(ts, f, i) { SinceIsFirstStale(ts, f, i); }
  }

  lemma {:induction false} FindFirstStale(ts: seq<Tick>, i: nat) returns (f: nat)
    requires i < |ts| && ts[i].stale
    ensures f <= i && FirstStale(ts, f, i)
  {
    if i > 0 && ts[i - 1].stale {
      f := FindFirstStale(ts, i - 1);
    } else {
      f := i;
    }
  }

  /** No stretch of two minutes with a pending node goes by without an attempt. */
  lemma NeverStarved(ts: seq<Tick>, i: nat, j: nat)
    requires Clocked(ts) && i <= j < |ts|
    requires forall k :: i <= k <= j ==> ts[k].pending
    requires ts[j].now - ts[i].now >= STALE_FORCE_SECS
    ensures exists k :: i <= k <= j && Attempts(ts, k)
  {
    if ts[j].stale {
      var f := FindFirstStale(ts, j);
      AttemptExactly(ts, f, j);
      if f > i {
        assert !ts[f - 1].stale;
        assert Attempts(ts, f - 1);
      } else {
        assert Attempts(ts, j);
      }
    } else {
      assert Attempts(ts, j);
    }
  }

  /** While a node stays pending, two successive attempts are less than two minutes and two pass gaps apart. */
  lemma WaitBetweenAttempts(ts: seq<Tick>, a: nat, b: nat, gap: nat)
    requires Clocked(ts) && a < b < |ts|
    requires forall k :: a <= k <= b ==> ts[k].pending
    requires forall k :: a <= k < b ==> ts[k + 1].now - ts[k].now <= gap
    requires forall k :: a < k < b ==> !Attempts(ts, k)
    ensures ts[b].now - ts[a].now < STALE_FORCE_SECS + 2 * gap
  {
    assert ts[a + 1].now - ts[a].now <= gap;
    if a + 1 < b {
      if ts[b - 1].now - ts[a + 1].now >= STALE_FORCE_SECS { NeverStarved(ts, a + 1, b - 1); }
      assert ts[(b - 1) + 1].now - ts[b - 1].now <= gap;
    }
  }
}
