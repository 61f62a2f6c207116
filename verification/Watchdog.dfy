/**
 The watchdog over nodes that never finish joining: a marker file per address holds the
 time the node was first seen stuck; six minutes later the instance is terminated.
 A pass is the list of tagged, running instances it got from EC2, each with what
 corosync said of it and the clock when it was looked at.
 */
module Watchdog {
  import opened Text

  const JOIN_STUCK_SECS := 360

  datatype Sighting = Sighting(ip: string, instance: string, online: bool, now: int)

  /** Private addresses are unique among running instances. */
  ghost predicate Distinct(pass: seq<Sighting>) {
    forall i, j :: 0 <= i < j < |pass| ==> pass[i].ip != pass[j].ip
  }

  // ---- one address --------------------------------------------------------

  /** The marker of an address after it was looked at. */
  function Marked(mark: Option<int>, s: Sighting): Option<int> {
    if s.online then None
    else if mark.None? then Some(s.now)
    else if s.now - mark.value >= JOIN_STUCK_SECS then None
    else mark
  }

  predicate Expired(mark: Option<int>, s: Sighting) {
    !s.online && mark.Some? && s.now - mark.value >= JOIN_STUCK_SECS
  }

  function MarkOf(marks: map<string, int>, ip: string): Option<int> {
    if ip in marks then Some(marks[ip]) else None
  }

  /** The sighting of an address in a pass. */
  function SightingOf(pass: seq<Sighting>, ip: string): Option<Sighting> {
    if pass == [] then None else if pass[0].ip == ip then Some(pass[0]) else SightingOf(pass[1..], ip)
  }

  lemma {:induction false} SightingIs(pass: seq<Sighting>, i: nat)
    requires Distinct(pass) && i < |pass|
    ensures SightingOf(pass, pass[i].ip) == Some(pass[i])
  {
    if i > 0 { SightingIs(pass[1..], i - 1); }
  }

  lemma {:induction false} SightingIn(pass: seq<Sighting>, ip: string)
    ensures SightingOf(pass, ip).None? <==> forall s :: s in pass ==> s.ip != ip
    ensures SightingOf(pass, ip).Some? ==> SightingOf(pass, ip).value in pass && SightingOf(pass, ip).value.ip == ip
  {
    if pass != [] {
      assert pass == [pass[0]] + pass[1..];
      SightingIn(pass[1..], ip);
    }
  }

  // ---- a pass -------------------------------------------------------------

  /** The marker of an address after a whole pass: none for an address that is not pending any more. */
  function MarkAfter(mark: Option<int>, pass: seq<Sighting>, ip: string): Option<int> {
    var s := SightingOf(pass, ip);
    if s.None? then None else Marked(mark, s.value)
  }

  predicate TerminatedIn(mark: Option<int>, pass: seq<Sighting>, ip: string) {
    var s := SightingOf(pass, ip);
    s.Some? && Expired(mark, s.value)
  }

  // ---- the loop, address by address ----------------------------------------

  /** The markers after the first n addresses of a pass were looked at. */
  ghost predicate Looked(before: map<string, int>, now: map<string, int>, pass: seq<Sighting>, n: nat)
    requires n <= |pass|
  {
    && (forall k :: 0 <= k < n ==> MarkOf(now, pass[k].ip) == Marked(MarkOf(before, pass[k].ip), pass[k]))
    && (forall ip :: (forall k :: 0 <= k < n ==> pass[k].ip != ip) ==> MarkOf(now, ip) == MarkOf(before, ip))
  }

  /** Exactly those of the first n instances whose time is up. */
  ghost predicate AllDue(before: map<string, int>, pass: seq<Sighting>, n: nat, terminated: seq<Sighting>)
    requires n <= |pass|
  {
    forall s :: s in terminated <==> exists k :: 0 <= k < n && pass[k] == s && Expired(MarkOf(before, s.ip), s)
  }

  lemma NoneLooked(marks: map<string, int>, pass: seq<Sighting>)
    ensures Looked(marks, marks, pass, 0) && AllDue(marks, pass, 0, [])
  {
  }

  lemma NotYetLooked(before: map<string, int>, now: map<string, int>, pass: seq<Sighting>, i: nat)
    requires Distinct(pass) && i < |pass| && Looked(before, now, pass, i)
    ensures MarkOf(now, pass[i].ip) == MarkOf(before, pass[i].ip)
  {
  }

  lemma LookedOneMore(before: map<string, int>, now: map<string, int>, next: map<string, int>, pass: seq<Sighting>, i: nat)
    requires Distinct(pass) && i < |pass| && Looked(before, now, pass, i)
    requires MarkOf(next, pass[i].ip) == Marked(MarkOf(now, pass[i].ip), pass[i])
    requires forall ip :: ip != pass[i].ip ==> MarkOf(next, ip) == MarkOf(now, ip)
    ensures Looked(before, next, pass, i + 1)
  {
    hide MarkOf, Marked;
    NotYetLooked(before, now, pass, i);
  }

  lemma DueOneMore(before: map<string, int>, pass: seq<Sighting>, i: nat, terminated: seq<Sighting>)
    requires i < |pass| && AllDue(before, pass, i, terminated)
    ensures var s := pass[i];
      AllDue(before, pass, i + 1, if Expired(MarkOf(before, s.ip), s) then terminated + [s] else terminated)
  {
    hide Expired, MarkOf;
  }

  lemma AfterPass(before: map<string, int>, looked: map<string, int>, after: map<string, int>, pass: seq<Sighting>)
    requires Distinct(pass) && Looked(before, looked, pass, |pass|)
    requires forall ip :: MarkOf(after, ip) == if SightingOf(pass, ip).Some? then MarkOf(looked, ip) else None
    ensures forall ip :: MarkOf(after, ip) == MarkAfter(MarkOf(before, ip), pass, ip)
  {
    hide MarkOf, Marked, SightingOf;
    forall ip ensures MarkOf(after, ip) == MarkAfter(MarkOf(before, ip), pass, ip) {
      SightingIn(pass, ip);
      if SightingOf(pass, ip).Some? {
        var k :| 0 <= k < |pass| && pass[k] == SightingOf(pass, ip).value;
      }
    }
  }

  lemma DueInPass(before: map<string, int>, pass: seq<Sighting>, terminated: seq<Sighting>)
    requires Distinct(pass) && AllDue(before, pass, |pass|, terminated)
    ensures forall s :: s in terminated <==> s in pass && TerminatedIn(MarkOf(before, s.ip), pass, s.ip)
  {
    hide MarkOf, Expired, SightingOf;
    forall s ensures s in terminated <==> s in pass && TerminatedIn(MarkOf(before, s.ip), pass, s.ip) {
      if s in pass {
        var k :| 0 <= k < |pass| && pass[k] == s;
        SightingIs(pass, k);
      }
    }
  }

  // ---- a run of passes ----------------------------------------------------

  /** The marker of an address before pass i, when no marker existed at first. */
  function MarkAt(ps: seq<seq<Sighting>>, ip: string, i: nat): Option<int>
    requires i <= |ps|
  {
    if i == 0 then None else MarkAfter(MarkAt(ps, ip, i - 1), ps[i - 1], ip)
  }

  /** Pass i issues a terminate request for an address. */
  predicate TerminatesAt(ps: seq<seq<Sighting>>, ip: string, i: nat)
    requires i < |ps|
  {
    TerminatedIn(MarkAt(ps, ip, i), ps[i], ip)
  }

  /** Pass i sees the address tagged and running but not online. */
  predicate StuckAt(ps: seq<seq<Sighting>>, ip: string, i: nat)
    requires i < |ps|
  {
    var s := SightingOf(ps[i], ip);
    s.Some? && !s.value.online
  }

  function TimeAt(ps: seq<seq<Sighting>>, ip: string, i: nat): int
    requires i < |ps| && StuckAt(ps, ip, i)
  {
    SightingOf(ps[i], ip).value.now
  }

  ghost predicate StuckThrough(ps: seq<seq<Sighting>>, ip: string, k: nat, j: nat)
    requires k <= j < |ps|
    ensures StuckThrough(ps, ip, k, j) ==> StuckAt(ps, ip, k) && StuckAt(ps, ip, j)
  {
    forall m :: k <= m <= j ==> StuckAt(ps, ip, m)
  }

  /** A marker is the time of a pass since which every pass saw the address stuck. */
  lemma {:induction false} MarkerHistory(ps: seq<seq<Sighting>>, ip: string, i: nat) returns (k: nat)
    requires i <= |ps| && MarkAt(ps, ip, i).Some?
    ensures k < i && (forall m :: k <= m < i ==> StuckAt(ps, ip, m)) && (forall m :: k < m <= i ==> MarkAt(ps, ip, m).Some?)
    ensures MarkAt(ps, ip, i).value == TimeAt(ps, ip, k) && MarkAt(ps, ip, k).None?
  {
    assert StuckAt(ps, ip, i - 1);
    if MarkAt(ps, ip, i - 1).Some? {
      k := MarkerHistory(ps, ip, i - 1);
    } else {
      k := i - 1;
    }
  }

  /** Every pass of the last six minutes or more before pass j, and pass j, saw the address stuck. */
  ghost predicate StuckLong(ps: seq<seq<Sighting>>, ip: string, j: nat)
    requires j < |ps|
  {
    exists k: nat :: k < j && StuckThrough(ps, ip, k, j) && TimeAt(ps, ip, j) - TimeAt(ps, ip, k) >= JOIN_STUCK_SECS
  }

  /**
   A terminate request is issued only for an address that every pass of the last six
   minutes or more saw tagged, running and not online.
   */
  lemma TerminatedWasStuck(ps: seq<seq<Sighting>>, ip: string, j: nat)
    requires j < |ps| && TerminatesAt(ps, ip, j)
    ensures StuckLong(ps, ip, j)
  {
    var k := MarkerHistory(ps, ip, j);
    assert StuckThrough(ps, ip, k, j);
  }

  /** The clock never goes back between the sightings of an address. */
  ghost predicate Clocked(ps: seq<seq<Sighting>>, ip: string) {
    forall i, j :: 0 <= i <= j < |ps| && StuckAt(ps, ip, i) && StuckAt(ps, ip, j) ==> TimeAt(ps, ip, i) <= TimeAt(ps, ip, j)
  }

  /** A terminated address starts anew: two terminate requests for it are at least six minutes apart. */
  lemma TerminationsApart(ps: seq<seq<Sighting>>, ip: string, i: nat, j: nat)
    requires i < j < |ps| && Clocked(ps, ip) && TerminatesAt(ps, ip, i) && TerminatesAt(ps, ip, j)
    ensures StuckAt(ps, ip, i) && StuckAt(ps, ip, j) && TimeAt(ps, ip, j) - TimeAt(ps, ip, i) >= JOIN_STUCK_SECS
  {
    assert MarkAt(ps, ip, i + 1).None?;
    var k := MarkerHistory(ps, ip, j);
    assert k > i && StuckAt(ps, ip, k) && StuckAt(ps, ip, i);
  }

  /** After pass k no later pass up to j comes six minutes or more after it. */
  ghost predicate Recent(ps: seq<seq<Sighting>>, ip: string, k: nat, j: nat)
    requires k <= j < |ps| && StuckThrough(ps, ip, k, j)
  {
    forall m :: k < m <= j ==> StuckAt(ps, ip, m) && TimeAt(ps, ip, m) - TimeAt(ps, ip, k) < JOIN_STUCK_SECS
  }

  lemma {:induction false} MarkerLasts(ps: seq<seq<Sighting>>, ip: string, k: nat, j: nat)
    requires k <= j < |ps| && MarkAt(ps, ip, k).None?
    requires StuckThrough(ps, ip, k, j) && Recent(ps, ip, k, j)
    ensures MarkAt(ps, ip, j + 1) == Some(TimeAt(ps, ip, k))
    ensures !TerminatesAt(ps, ip, j)
  {
    assert StuckAt(ps, ip, j);
    if j > k {
      assert StuckThrough(ps, ip, k, j - 1);
      MarkerLasts(ps, ip, k, j - 1);
      assert TimeAt(ps, ip, j) - TimeAt(ps, ip, k) < JOIN_STUCK_SECS;
    }
  }

  /**
   An address seen stuck by every pass since its marker was made is terminated exactly by
   the first of them at least six minutes later, and by none before.
   */
  lemma StuckIsTerminated(ps: seq<seq<Sighting>>, ip: string, k: nat, j: nat)
    requires k < j < |ps| && MarkAt(ps, ip, k).None?
    requires StuckThrough(ps, ip, k, j) && StuckThrough(ps, ip, k, j - 1) && Recent(ps, ip, k, j - 1)
    ensures TerminatesAt(ps, ip, j) <==> TimeAt(ps, ip, j) - TimeAt(ps, ip, k) >= JOIN_STUCK_SECS
    ensures forall m :: k <= m < j ==> !TerminatesAt(ps, ip, m)
  {
    MarkerLasts(ps, ip, k, j - 1);
    forall m | k <= m < j ensures !TerminatesAt(ps, ip, m) {
      assert StuckThrough(ps, ip, k, m);
      MarkerLasts(ps, ip, k, m);
    }
  }

  lemma {:induction false} MarkAtPrefix(ps: seq<seq<Sighting>>, pass: seq<Sighting>, ip: string, i: nat)
    requires i <= |ps|
    ensures MarkAt(ps + [pass], ip, i) == MarkAt(ps, ip, i)
  {
    hide MarkAfter;
    if i > 0 { MarkAtPrefix(ps, pass, ip, i - 1); }
  }

  lemma OneMorePass(before: map<string, int>, after: map<string, int>, ps: seq<seq<Sighting>>, pass: seq<Sighting>)
    requires forall ip :: MarkOf(before, ip) == MarkAt(ps, ip, |ps|)
    requires forall ip :: MarkOf(after, ip) == MarkAfter(MarkOf(before, ip), pass, ip)
    ensures forall ip :: MarkOf(after, ip) == MarkAt(ps + [pass], ip, |ps| + 1)
    ensures forall ip :: TerminatesAt(ps + [pass], ip, |ps|) == TerminatedIn(MarkOf(before, ip), pass, ip)
  {
    hide MarkOf, MarkAfter, TerminatedIn;
    forall ip ensures MarkAt(ps + [pass], ip, |ps|) == MarkAt(ps, ip, |ps|) {
      MarkAtPrefix(ps, pass, ip, |ps|);
    }
  }

  // ---- the watchdog ----------------------------------------------------------

  /** The marker files, and the passes made so far with the shared mount in place. */
  class Reaper {
    var marks: map<string, int>
    ghost var passes: seq<seq<Sighting>>

    ghost predicate Valid()
      reads this
    {
      forall ip :: MarkOf(marks, ip) == MarkAt(passes, ip, |passes|)
    }

    constructor ()
      ensures Valid() && marks == map[] && passes == []
    {
      marks := map[];
      passes := [];
    }

    /**
     reap_stuck_join_nodes: nothing without the shared mount; otherwise every address on its
     own. An instance is terminated only if all passes of the last six minutes saw it stuck.
     */
    method Reap(mounted: bool, pass: seq<Sighting>) returns (terminated: seq<Sighting>)
      requires Valid() && Distinct(pass)
      modifies this
      ensures Valid() && passes == if mounted then old(passes) + [pass] else old(passes)
      ensures !mounted ==> marks == old(marks) && terminated == []
      ensures mounted ==> forall ip :: MarkOf(marks, ip) == MarkAfter(MarkOf(old(marks), ip), pass, ip)
      ensures mounted ==> forall s :: s in terminated <==> s in pass && TerminatesAt(passes, s.ip, |old(passes)|)
      ensures mounted ==> forall s :: s in terminated ==> StuckLong(passes, s.ip, |old(passes)|)
    {
      terminated := [];
      if !mounted { return; }
      hide Looked, AllDue, MarkOf, MarkAfter, MarkAt, TerminatedIn, TerminatesAt, StuckLong, Distinct;
      terminated := LookAtEach(pass);
      ghost var looked := marks;
      DropUnseen(pass);
      AfterPass(old(marks), looked, marks, pass);
      DueInPass(old(marks), pass, terminated);
      OneMorePass(old(marks), marks, passes, pass);
      passes := passes + [pass];
      forall s | s in terminated ensures StuckLong(passes, s.ip, |old(passes)|) {
        TerminatedWasStuck(passes, s.ip, |old(passes)|);
      }
    }

    /** The loop over the tagged, running instances. */
    method LookAtEach(pass: seq<Sighting>) returns (terminated: seq<Sighting>)
      requires Distinct(pass)
      modifies this`marks
      ensures Looked(old(marks), marks, pass, |pass|) && AllDue(old(marks), pass, |pass|, terminated)
    {
      hide Looked, AllDue;
      terminated := [];
      NoneLooked(marks, pass);
      for i := 0 to |pass|
        invariant Looked(old(marks), marks, pass, i) && AllDue(old(marks), pass, i, terminated)
      {
        var s := pass[i];
        ghost var before := marks;
        NotYetLooked(old(marks), marks, pass, i);
        DueOneMore(old(marks), pass, i, terminated);
        if s.online {
          marks := marks - {s.ip};
        } else if s.ip !in marks {
          marks := marks[s.ip := s.now];
        } else if s.now - marks[s.ip] >= JOIN_STUCK_SECS {
          terminated := terminated + [s];
          marks := marks - {s.ip};
        }
        LookedOneMore(old(marks), before, marks, pass, i);
      }
    }

    /** Delete the markers of addresses that this pass did not see. */
    method DropUnseen(pass: seq<Sighting>)
      modifies this`marks
      ensures forall ip :: MarkOf(marks, ip) == if SightingOf(pass, ip).Some? then MarkOf(old(marks), ip) else None
    {
      var files := marks.Keys;
      while files != {}
        invariant files <= old(marks).Keys && marks.Keys <= old(marks).Keys
        invariant forall ip :: ip in files ==> MarkOf(marks, ip) == MarkOf(old(marks), ip)
        invariant forall ip :: ip !in files ==>
          MarkOf(marks, ip) == if SightingOf(pass, ip).Some? then MarkOf(old(marks), ip) else None
        decreases files
      {
        var f :| f in files;
        files := files - {f};
        if SightingOf(pass, f).None? { marks := marks - {f}; }
      }
    }
  }
}
