/**
 When node ids are reused after all. The counter is raised above the ids in conf before
 nodes join, but the runtime list is never consulted, and conf forgets the nodes that
 are removed from it.
 */
module IdReuse {
  import opened Text
  import opened ConfText
  import opened Membership

  // ---- the next join ------------------------------------------------------

  /** Some id stands for two addresses at once. */
  ghost predicate Clash(s: State) {
    exists id: nat, a, b :: Bound(s, id, a) && Bound(s, id, b) && a != b
  }

  lemma SyncRaisesAll(s: State)
    ensures NextId(Apply(s, Sync)) > MaxId(s.nodes) && NextId(Apply(s, Sync)) >= NextId(s)
  {
  }

  /** Above every id in conf the counter itself is the next free id. */
  lemma FreeIsCounter(s: State)
    requires NextId(s) > MaxId(s.nodes)
    ensures FreeId(s.nodes, NextId(s)) == NextId(s)
  {
    assert !UsesId(s.nodes, NextId(s));
  }

  /** What a join right after a sync does. */
  lemma JoinTakesCounter(s: State, ip: string)
    requires NextId(s) > MaxId(s.nodes) && !Lists(s.nodes, ip)
    ensures var id := NextId(s);
      Apply(s, Assign(ip)) == s.(nodes := s.nodes + [Node(ip, id)], counter := Some(id + 1))
  {
    hide FreeId, MaxId;
    FreeIsCounter(s);
  }

  /**
   The next join makes an id stand for two addresses exactly when the raised counter is
   an id that corosync still binds to another address.
   */
  lemma NextJoinClashes(s: State, ip: string)
    requires Sound(s) && !Lists(s.nodes, ip)
    ensures var id := NextId(Apply(s, Sync));
      Clash(Apply(Apply(s, Sync), Assign(ip))) <==> id in s.runtime && s.runtime[id] != ip
  {
    hide MaxId, FreeId, Lists;
    var id := NextId(Apply(s, Sync));
    SyncRaisesAll(s);
    var t := Apply(s, Sync);
    JoinTakesCounter(t, ip);
    var u := Apply(t, Assign(ip));
    assert u.nodes == s.nodes + [Node(ip, id)] && u.runtime == s.runtime;
    assert u.nodes[|s.nodes|] == Node(ip, id);
    if id in s.runtime && s.runtime[id] != ip {
      assert Bound(u, id, ip) && Bound(u, id, s.runtime[id]);
    } else {
      forall i: nat, a, b | Bound(u, i, a) && Bound(u, i, b) ensures a == b {
        if i == id {
          assert forall n :: n in s.nodes ==> n.id != id;
        } else {
          OneAddress(s, i, a, b);
        }
      }
    }
  }

  /** A cluster whose counter file was lost after its second node was removed from conf. */
  lemma StaleCounterReuses()
    ensures var s := State([Node("10.0.0.1", 1)], map[1 := "10.0.0.1", 2 := "10.0.0.2"], None, {1}, 1);
      Clash(Apply(Apply(s, Sync), Assign("10.0.0.3")))
  {
    var nodes := [Node("10.0.0.1", 1)];
    var s := State(nodes, map[1 := "10.0.0.1", 2 := "10.0.0.2"], None, {1}, 1);
    assert nodes[0] in nodes && nodes[1..] == [];
    assert MaxId(nodes) == 1;
    NextJoinClashes(s, "10.0.0.3");
  }

  // ---- over whole runs ----------------------------------------------------

  /** Nodes are added only while the counter is above the ids in conf, as after a sync. */
  predicate Synced(s: State, e: Event) { e.Assign? ==> NextId(s) > MaxId(s.nodes) }

  ghost predicate SyncedRun(s: State, es: seq<Event>) {
    forall i :: 0 <= i < |es| ==> Synced(Run(s, es[..i]), es[i])
  }

  /** A legal run of synced events. */
  ghost predicate Possible(me: string, s: State, es: seq<Event>) {
    LegalRun(me, s, es) && SyncedRun(s, es)
  }

  /** At two moments of a run an id stands for different addresses. */
  ghost predicate Reuses(s: State, es: seq<Event>) {
    exists i, j, id: nat, a, b ::
      0 <= i <= j <= |es| && Bound(Run(s, es[..i]), id, a) && Bound(Run(s, es[..j]), id, b) && a != b
  }

  /** The least id a join can ever get: the counter, or one above the writer's own id. */
  function LeastNew(me: string, s: State): nat {
    var w := IdOf(s.nodes, me).GetOr(1);
    var used := if w > 1 then w else 1;
    if NextId(s) > used then NextId(s) else used + 1
  }

  /** No id in use is one that a join may still get. */
  ghost predicate AllSpent(s: State, least: nat) {
    forall id: nat, ip :: Bound(s, id, ip) ==> id < least
  }

  // ---- all ids spent: no reuse --------------------------------------------

  /** Every id in use is below what joins get from here on. */
  ghost predicate Tame(me: string, least: nat, s: State) {
    && Sound(s) && Lists(s.nodes, me) && LeastNew(me, s) >= least
    && AllSpent(s, LeastNew(me, s))
  }

  lemma WriterIdBelow(me: string, s: State)
    requires Sound(s) && Lists(s.nodes, me) && NextId(s) > MaxId(s.nodes)
    ensures LeastNew(me, s) == NextId(s)
  {
    hide MaxId;
    IdOfIsMember(s.nodes, me);
  }

  /** An id bound after an event was bound before it, or a join could still get it. */
  ghost predicate OnlyNew(s: State, t: State, least: nat) {
    forall id: nat, ip :: Bound(t, id, ip) ==> Bound(s, id, ip) || id >= least
  }

  lemma SameWriter(me: string, s: State, t: State)
    requires Lists(s.nodes, me) && Distinct(t.nodes)
    requires forall n :: n in s.nodes && n.ip == me ==> n in t.nodes
    ensures IdOf(t.nodes, me) == IdOf(s.nodes, me) && Lists(t.nodes, me)
  {
    IdOfIsMember(s.nodes, me);
    IdOfIsMember(t.nodes, me);
  }

  /** What an event must do to stay tame. */
  lemma StaysTame(me: string, least: nat, s: State, t: State)
    requires Tame(me, least, s) && Sound(t) && NextId(t) >= NextId(s)
    requires forall n :: n in s.nodes && n.ip == me ==> n in t.nodes
    requires forall id: nat, ip :: Bound(t, id, ip) ==> Bound(s, id, ip) || LeastNew(me, s) <= id < NextId(t)
    ensures Tame(me, least, t) && OnlyNew(s, t, LeastNew(me, s))
  {
    SameWriter(me, s, t);
    hide LeastNew, Bound;
    MoreCounter(me, s, t);
  }

  lemma MoreCounter(me: string, s: State, t: State)
    requires IdOf(t.nodes, me) == IdOf(s.nodes, me) && NextId(t) >= NextId(s)
    ensures LeastNew(me, t) >= LeastNew(me, s) && LeastNew(me, t) >= NextId(t)
  {
  }

  lemma JoinIsTame(me: string, least: nat, s: State, ip: string)
    requires Tame(me, least, s) && NextId(s) > MaxId(s.nodes) && !Lists(s.nodes, ip)
    ensures Tame(me, least, Apply(s, Assign(ip))) && OnlyNew(s, Apply(s, Assign(ip)), LeastNew(me, s))
  {
    hide FreeId, MaxId, LeastNew;
    WriterIdBelow(me, s);
    JoinTakesCounter(s, ip);
    forall n | n in s.nodes ensures n.id < NextId(s) { assert Bound(s, n.id, n.ip); }
    forall id | id in s.runtime ensures id < NextId(s) { assert Bound(s, id, s.runtime[id]); }
    assert Distinct(Apply(s, Assign(ip)).nodes);
    StaysTame(me, least, s, Apply(s, Assign(ip)));
  }

  lemma RemovalIsTame(me: string, least: nat, s: State, ip: string, seen: set<string>)
    requires Tame(me, least, s) && ip != me
    ensures Tame(me, least, Apply(s, Remove(ip, seen))) && OnlyNew(s, Apply(s, Remove(ip, seen)), LeastNew(me, s))
  {
    hide Without, LeastNew;
    WithoutIsFilter(s.nodes, ip);
    StaysTame(me, least, s, Apply(s, Remove(ip, seen)));
  }

  lemma ReloadIsTame(me: string, least: nat, s: State, raises: bool)
    requires Tame(me, least, s)
    ensures Tame(me, least, Apply(s, Reload(raises))) && OnlyNew(s, Apply(s, Reload(raises)), LeastNew(me, s))
  {
    hide Merged, LeastNew;
    StaysTame(me, least, s, Apply(s, Reload(raises)));
  }

  lemma OtherIsTame(me: string, least: nat, s: State, e: Event)
    requires Tame(me, least, s) && !e.Assign? && !e.Remove? && !e.Reload?
    ensures Tame(me, least, Apply(s, e)) && OnlyNew(s, Apply(s, e), LeastNew(me, s))
  {
    hide MaxId, LeastNew;
    SyncRaisesAll(s);
    StaysTame(me, least, s, Apply(s, e));
  }

  lemma EventIsTame(me: string, least: nat, s: State, e: Event)
    requires Tame(me, least, s) && Legal(me, s, e) && Synced(s, e)
    ensures Tame(me, least, Apply(s, e)) && OnlyNew(s, Apply(s, e), LeastNew(me, s))
  {
    match e
    case Assign(ip) => if !Lists(s.nodes, ip) { JoinIsTame(me, least, s, ip); }
    case Remove(ip, seen) => RemovalIsTame(me, least, s, ip, seen);
    case Reload(raises) => ReloadIsTame(me, least, s, raises);
    case _ => OtherIsTame(me, least, s, e);
  }

  lemma {:induction false} RunIsTame(me: string, s: State, es: seq<Event>, i: nat, j: nat)
    requires Tame(me, LeastNew(me, s), s) && LegalRun(me, s, es) && SyncedRun(s, es) && i <= j <= |es|
    ensures var t := Run(s, es[..i]); Tame(me, LeastNew(me, s), t) && OnlyNew(t, Run(s, es[..j]), LeastNew(me, t))
    ensures Tame(me, LeastNew(me, Run(s, es[..i])), Run(s, es[..j]))
    decreases j
  {
    hide Apply, Legal, Synced, LeastNew, Sound, Bound, AllSpent;
    var least := LeastNew(me, s);
    if j == 0 {
      assert Run(s, es[..0]) == s;
    } else if i == j {
      RunIsTame(me, s, es, j - 1, j - 1);
      RunStep(s, es, j - 1);
      EventIsTame(me, least, Run(s, es[..j - 1]), es[j - 1]);
    } else {
      RunIsTame(me, s, es, i, j - 1);
      RunStep(s, es, j - 1);
      EventIsTame(me, LeastNew(me, Run(s, es[..i])), Run(s, es[..j - 1]), es[j - 1]);
    }
  }

  lemma SpentNeverReused(me: string, s: State, es: seq<Event>)
    requires Sound(s) && Lists(s.nodes, me) && AllSpent(s, LeastNew(me, s))
    requires Possible(me, s, es)
    ensures !Reuses(s, es)
  {
    hide LeastNew, Run;
    forall i, j, id: nat, a, b | 0 <= i <= j <= |es| && Bound(Run(s, es[..i]), id, a) && Bound(Run(s, es[..j]), id, b)
      ensures a == b
    {
      RunIsTame(me, s, es, i, j);
      OneAddress(Run(s, es[..i]), id, a, b);
    }
  }

  // ---- an id not spent: a run that reuses it ------------------------------

  lemma Extend(me: string, s: State, es: seq<Event>, e: Event)
    requires Possible(me, s, es) && Legal(me, Run(s, es), e) && Synced(Run(s, es), e)
    ensures Possible(me, s, es + [e]) && Run(s, es + [e]) == Apply(Run(s, es), e)
  {
    hide Legal, Apply, Synced;
    TraceExtends(me, s, es, e);
    forall i | 0 <= i < |es + [e]| ensures Synced(Run(s, (es + [e])[..i]), (es + [e])[i]) {
      assert (es + [e])[..|es|] == es;
      if i < |es| { assert (es + [e])[..i] == es[..i]; }
    }
  }

  /** Every node but the writer departs. */
  lemma {:induction false} ClearConf(me: string, s: State, es: seq<Event>) returns (es': seq<Event>)
    requires Possible(me, s, es) && Lists(Run(s, es).nodes, me) && Distinct(Run(s, es).nodes)
    ensures Possible(me, s, es') && var t := Run(s, es');
      && Distinct(t.nodes) && t == Run(s, es).(nodes := t.nodes) && Lists(t.nodes, me)
      && forall n :: n in t.nodes ==> n.ip == me && n in Run(s, es).nodes
    decreases |Run(s, es).nodes|
  {
    hide Possible;
    var t := Run(s, es);
    if n :| n in t.nodes && n.ip != me {
      var e := Remove(n.ip, {});
      Extend(me, s, es, e);
      WithoutShorter(t.nodes, n.ip);
      WithoutIsFilter(t.nodes, n.ip);
      es' := ClearConf(me, s, es + [e]);
    } else {
      es' := es;
    }
  }

  /** With only the writer in conf, one more node joins and departs, and the counter moves up by one. */
  lemma JoinAndLeave(me: string, s: State, es: seq<Event>, ip: string) returns (es': seq<Event>)
    requires Possible(me, s, es) && ip != me
    requires forall n :: n in Run(s, es).nodes ==> n.ip == me
    requires NextId(Run(s, es)) > MaxId(Run(s, es).nodes)
    ensures Possible(me, s, es') && Run(s, es') == Run(s, es).(counter := Some(NextId(Run(s, es)) + 1))
  {
    hide Possible, MaxId, FreeId, Run;
    var t := Run(s, es);
    var id := NextId(t);
    Extend(me, s, es, Assign(ip));
    JoinTakesCounter(t, ip);
    Extend(me, s, es + [Assign(ip)], Remove(ip, {}));
    es' := es + [Assign(ip)] + [Remove(ip, {})];
    JoinedRemoved(t.nodes, ip, id);
  }

  lemma {:induction false} JoinedRemoved(nodes: seq<Node>, ip: string, id: nat)
    requires forall n :: n in nodes ==> n.ip != ip
    ensures Without(nodes + [Node(ip, id)], ip) == nodes
  {
    if nodes == [] {
      assert [Node(ip, id)][1..] == [] && nodes + [Node(ip, id)] == [Node(ip, id)];
    } else {
      assert nodes[0] in nodes && forall n :: n in nodes[1..] ==> n in nodes;
      assert (nodes + [Node(ip, id)])[1..] == nodes[1..] + [Node(ip, id)];
      JoinedRemoved(nodes[1..], ip, id);
    }
  }

  /** Nodes come and go until the counter reaches an id; the next node gets it. */
  lemma {:induction false} ClimbTo(me: string, s: State, es: seq<Event>, ip: string, id: nat) returns (es': seq<Event>)
    requires Possible(me, s, es) && ip != me
    requires forall n :: n in Run(s, es).nodes ==> n.ip == me
    requires MaxId(Run(s, es).nodes) < NextId(Run(s, es)) <= id
    ensures Possible(me, s, es') && Bound(Run(s, es'), id, ip)
    decreases id - NextId(Run(s, es))
  {
    hide Possible, MaxId, FreeId, Run;
    var t := Run(s, es);
    if NextId(t) == id {
      es' := es + [Assign(ip)];
      Extend(me, s, es, Assign(ip));
      JoinTakesCounter(t, ip);
      assert Run(s, es').nodes[|t.nodes|] == Node(ip, id);
    } else {
      var up := JoinAndLeave(me, s, es, ip);
      es' := ClimbTo(me, s, up, ip, id);
    }
  }

  lemma OnlyWriterMax(me: string, nodes: seq<Node>)
    requires Distinct(nodes) && Lists(nodes, me) && forall n :: n in nodes ==> n.ip == me
    ensures MaxId(nodes) <= IdOf(nodes, me).GetOr(1) || MaxId(nodes) == 1
  {
    IdOfIsMember(nodes, me);
  }

  lemma NothingPossible(me: string, s: State)
    ensures Possible(me, s, [])
  {
  }

  lemma UnspentIsReused(me: string, s: State, id: nat, ip: string, ip': string) returns (es: seq<Event>)
    requires Sound(s) && Lists(s.nodes, me) && Bound(s, id, ip) && id >= LeastNew(me, s)
    requires ip' != me && ip' != ip
    ensures Possible(me, s, es) && Reuses(s, es)
  {
    hide MaxId, Without, Bound, Possible;
    var none: seq<Event> := [];
    assert Run(s, none) == s;
    NothingPossible(me, s);
    var cleared := ClearConf(me, s, none);
    hide Run;
    var t := Run(s, cleared);
    SameWriter(me, t, s);
    OnlyWriterMax(me, t.nodes);
    hide IdOf;
    Extend(me, s, cleared, Sync);
    SyncRaisesAll(t);
    es := ClimbTo(me, s, cleared + [Sync], ip', id);
    assert es[..0] == [] && es[..|es|] == es;
    assert Bound(Run(s, es[..0]), id, ip) && Bound(Run(s, es[..|es|]), id, ip');
  }

  /**
   From any sound state, some run reuses an id exactly when some id in conf or in the
   runtime list is not below the counter and above the writer's own id.
   */
  lemma ReuseExactly(me: string, s: State)
    requires Sound(s) && Lists(s.nodes, me)
    ensures (exists es :: Possible(me, s, es) && Reuses(s, es)) <==> !AllSpent(s, LeastNew(me, s))
  {
    hide Possible, Reuses, LeastNew, Sound, Bound;
    if AllSpent(s, LeastNew(me, s)) {
      forall es | Possible(me, s, es) ensures !Reuses(s, es) {
        SpentNeverReused(me, s, es);
      }
    } else {
      var id: nat, ip :| Bound(s, id, ip) && id >= LeastNew(me, s);
      var es := UnspentIsReused(me, s, id, ip, me + ip + "1");
    }
  }
}
