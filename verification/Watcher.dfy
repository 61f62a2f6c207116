/**
 The cluster watcher: its functions as methods on the files and the corosync state it
 rewrites. The configuration is edited as text by the awk programs; `layout` is the
 structure of that text. What AWS, pcs and corosync answer comes in as parameters, one
 answer per call; `trace` is the history of everything done, and `Valid` says that the
 state is what the legal events of `trace` make of the start state.
 */
module Watcher {
  import opened Text
  import opened ConfText
  import opened ConfEdits
  import opened Membership
  import opened JoinGate

  // ---- reading the configuration ------------------------------------------

  function NatText(t: string): nat { if AllDigits(t) then NatOf(t) else 0 }

  /** The node list as corosync reads it from the text. */
  function ReadNodes(lines: seq<string>): seq<Node> {
    var (ips, ids) := (RingAddresses(lines), IdTexts(lines));
    if |ips| != |ids| then [] else seq(|ips|, i requires 0 <= i < |ips| => Node(ips[i], NatText(ids[i])))
  }

  lemma ReadNodesOfText(c: Conf)
    requires WellFormed(c)
    ensures ReadNodes(Render(c)) == Nodes(c)
  {
    hide WellFormed, RingsFirst, Render, Decimal, NatOf, RingAddresses, IdTexts;
    GrepReadsNodes(c);
    forall i | 0 <= i < |Nodes(c)| ensures NatText(Decimal(Nodes(c)[i].id)) == Nodes(c)[i].id {
      NatOfDecimal(Nodes(c)[i].id);
    }
  }

  // ---- what stays ---------------------------------------------------------

  /** The id that conf gives one of these addresses. */
  ghost predicate IdAmong(nodes: seq<Node>, ips: set<string>, id: nat) {
    exists ip :: ip in ips && IdOf(nodes, ip) == Some(id)
  }

  lemma IdAmongMore(nodes: seq<Node>, ips: set<string>, ip: string)
    ensures forall id: nat :: IdAmong(nodes, ips + {ip}, id) <==> IdAmong(nodes, ips, id) || IdOf(nodes, ip) == Some(id)
  {
    hide IdOf;
  }

  /** No node joined since moment `from`. */
  predicate NoJoin(from: nat, trace: seq<Event>) { forall k :: from <= k < |trace| ==> !trace[k].Assign? }

  /** Since moment `from` the counter was raised before any node joined. */
  ghost predicate SyncedFirst(from: nat, trace: seq<Event>) {
    exists j :: from <= j < |trace| && trace[j] == Sync && forall k :: from <= k < j ==> !trace[k].Assign?
  }

  /** corosync knows every id in conf. */
  ghost predicate Loaded(s: State) { forall n :: n in s.nodes ==> n.id in s.runtime }

  /** Whatever was removed since moment `from` was removed while the expected votes were those of the ring. */
  ghost predicate RemovesPinned(start: State, from: nat, trace: seq<Event>) {
    forall k :: from <= k < |trace| && trace[k].Remove? ==> Pinned(Run(start, trace[..k]))
  }

  lemma NoRemoval(start: State, from: nat, trace: seq<Event>, e: Event)
    requires RemovesPinned(start, from, trace) && !e.Remove?
    ensures RemovesPinned(start, from, trace + [e])
  {
    hide Run, Pinned;
    forall k | from <= k < |trace + [e]| && (trace + [e])[k].Remove? ensures Pinned(Run(start, (trace + [e])[..k])) {
      assert (trace + [e])[..k] == trace[..k];
    }
  }

  lemma PinnedRemoval(start: State, from: nat, trace: seq<Event>, e: Event)
    requires RemovesPinned(start, from, trace) && Pinned(Run(start, trace))
    ensures RemovesPinned(start, from, trace + [e])
  {
    hide Run, Pinned;
    forall k | from <= k < |trace + [e]| && (trace + [e])[k].Remove? ensures Pinned(Run(start, (trace + [e])[..k])) {
      assert (trace + [e])[..k] == trace[..k];
      assert trace[..|trace|] == trace;
    }
  }

  lemma RemovalsMore(start: State, from: nat, a: seq<Event>, b: seq<Event>)
    requires from <= |a| && a <= b && RemovesPinned(start, from, a) && RemovesPinned(start, |a|, b)
    ensures RemovesPinned(start, from, b)
  {
    hide Run, Pinned;
    forall k | from <= k < |b| && b[k].Remove? ensures Pinned(Run(start, b[..k])) {
      if k < |a| { assert b[..k] == a[..k] && b[k] == a[k]; }
    }
  }

  /** The writer and the nodes whose instance runs, in order. */
  function Kept(nodes: seq<Node>, me: string, running: set<string>): seq<Node> {
    if nodes == [] then []
    else (if nodes[0].ip == me || nodes[0].ip in running then [nodes[0]] else []) + Kept(nodes[1..], me, running)
  }

  /** nodes without the addresses of gone. */
  function Minus(nodes: seq<Node>, gone: set<string>): seq<Node> {
    if nodes == [] then []
    else (if nodes[0].ip in gone then [] else [nodes[0]]) + Minus(nodes[1..], gone)
  }

  lemma {:induction false} MinusNothing(nodes: seq<Node>)
    ensures Minus(nodes, {}) == nodes
  {
    if nodes != [] {
      MinusNothing(nodes[1..]);
      assert nodes == [nodes[0]] + nodes[1..];
    }
  }

  lemma {:induction false} MinusOneMore(nodes: seq<Node>, gone: set<string>, ip: string)
    ensures Without(Minus(nodes, gone), ip) == Minus(nodes, gone + {ip})
  {
    if nodes != [] {
      MinusOneMore(nodes[1..], gone, ip);
      var rest := Minus(nodes[1..], gone);
      if nodes[0].ip !in gone {
        assert ([nodes[0]] + rest)[1..] == rest;
      } else {
        assert [] + rest == rest;
        assert [] + Minus(nodes[1..], gone + {ip}) == Minus(nodes[1..], gone + {ip});
      }
    }
  }

  lemma {:induction false} MinusIsFilter(nodes: seq<Node>, gone: set<string>)
    ensures forall n :: n in Minus(nodes, gone) <==> n in nodes && n.ip !in gone
  {
    if nodes != [] {
      assert nodes == [nodes[0]] + nodes[1..];
      MinusIsFilter(nodes[1..], gone);
    }
  }

  lemma {:induction false} KeptIsMinus(nodes: seq<Node>, me: string, running: set<string>, gone: set<string>)
    requires forall n :: n in nodes ==> (n.ip in gone <==> n.ip != me && n.ip !in running)
    ensures Minus(nodes, gone) == Kept(nodes, me, running)
  {
    if nodes != [] {
      assert nodes[0] in nodes && forall n :: n in nodes[1..] ==> n in nodes;
      KeptIsMinus(nodes[1..], me, running, gone);
    }
  }

  /** Whatever was removed or killed since `before` was decided on this EC2 answer. */
  ghost predicate Saw(before: seq<Event>, after: seq<Event>, running: set<string>) {
    && before <= after
    && forall k :: |before| <= k < |after| && (after[k].Remove? || after[k].Kill?) ==> after[k].seen == running
  }

  lemma SawNothing(a: seq<Event>, running: set<string>)
    ensures Saw(a, a, running)
  {
  }

  lemma SawStep(a: seq<Event>, b: seq<Event>, e: Event, running: set<string>)
    requires Saw(a, b, running) && (e.Remove? || e.Kill? ==> e.seen == running)
    ensures Saw(a, b + [e], running)
  {
  }

  lemma SawPrefix(a: seq<Event>, b: seq<Event>, running: set<string>)
    requires Saw(a, b, running)
    ensures a <= b
  {
  }

  lemma SawMore(a: seq<Event>, b: seq<Event>, c: seq<Event>, running: set<string>)
    requires Saw(a, b, running) && Saw(b, c, running)
    ensures Saw(a, c, running)
  {
  }

  /** The loop over the ids in conf. */
  method LargestId(nodes: seq<Node>) returns (maxId: nat)
    ensures maxId == MaxId(nodes)
  {
    hide MaxId;
    maxId := 1;
    for i := 0 to |nodes|
      invariant maxId >= 1 && forall k :: 0 <= k < i ==> nodes[k].id <= maxId
      invariant maxId == 1 || UsesId(nodes, maxId)
    {
      if nodes[i].id > maxId {
        assert nodes[i] in nodes;
        maxId := nodes[i].id;
      }
    }
    MaxIdIs(nodes, maxId);
  }

  class Cluster {
    const me: string
    var conf: seq<string>
    var idFile: Option<nat>
    var runtime: map<nat, string>
    var ring: set<nat>
    var expected: nat

    ghost var layout: Conf
    ghost const start: State
    ghost var trace: seq<Event>

    ghost function Now(): State
      reads this
    {
      State(Nodes(layout), runtime, idFile, ring, expected)
    }

    ghost predicate Valid()
      reads this
    {
      && conf == Render(layout) && WellFormed(layout) && RingsFirst(layout)
      && Inv(me, start) && LegalRun(me, start, trace) && Now() == Run(start, trace)
    }

    constructor (me: string, conf: seq<string>, idFile: Option<nat>, runtime: map<nat, string>, ring: set<nat>, expected: nat, ghost layout: Conf)
      requires conf == Render(layout) && WellFormed(layout) && RingsFirst(layout)
      requires Inv(me, State(Nodes(layout), runtime, idFile, ring, expected))
      ensures Valid() && trace == [] && Now() == State(Nodes(layout), runtime, idFile, ring, expected)
    {
      this.me, this.conf, this.idFile, this.runtime, this.ring, this.expected := me, conf, idFile, runtime, ring, expected;
      this.layout := layout;
      this.start := State(Nodes(layout), runtime, idFile, ring, expected);
      this.trace := [];
    }

    lemma NowIsGood()
      requires Valid()
      ensures Inv(me, Now()) && Distinct(Now().nodes)
    {
      hide Inv, Evolves, WellFormed, RingsFirst;
      RunKeeps(me, start, trace, |trace|, |trace|);
      assert trace[..|trace|] == trace;
      InvDistinct(me, Now());
    }

    /** The addresses in conf, as the grep and awk pipeline lists them. */
    method ConfAddresses() returns (ips: seq<string>)
      requires Valid()
      ensures ips == Addresses(Now().nodes)
    {
      ips := RingAddresses(conf);
      GrepReadsNodes(layout);
    }

    // ---- single steps -----------------------------------------------------

    /** corosync-cfgtool -R */
    method ReloadCorosync(raises: bool)
      requires Valid()
      modifies this`runtime, this`expected, this`trace
      ensures Valid() && trace == old(trace) + [Reload(raises)] && Now() == Apply(old(Now()), Reload(raises))
      ensures forall id :: id in old(runtime) ==> id in runtime && runtime[id] == old(runtime)[id]
    {
      hide WellFormed, RingsFirst, Render, Inv, Merged, ReadNodes, LegalRun, Run, MaxId, FreeId;
      ReadNodesOfText(layout);
      var nodes := ReadNodes(conf);
      TraceExtends(me, start, trace, Reload(raises));
      runtime := Merged(runtime, nodes);
      if raises && expected < |nodes| { expected := |nodes|; }
      trace := trace + [Reload(raises)];
    }

    /** pin_expected_votes */
    method PinExpectedVotes()
      requires Valid()
      modifies this`expected, this`trace
      ensures Valid() && trace == old(trace) + [Pin] && Now() == Apply(old(Now()), Pin)
      ensures ring != {} ==> Quorate(Now()) && expected == |ring|
    {
      hide WellFormed, RingsFirst, Render, Inv;
      TraceExtends(me, start, trace, Pin);
      trace := trace + [Pin];
      var live := |ring|;
      if live < 1 { return; }
      if expected == live { return; }
      expected := live;
    }

    /** The last step of a cleanup: the votes present, but at least one. */
    method SetLiveVotes()
      requires Valid()
      modifies this`expected, this`trace
      ensures Valid() && trace == old(trace) + [SetVotes] && Now() == Apply(old(Now()), SetVotes)
      ensures if ring != {} then Quorate(Now()) && expected == |ring| else expected == 1
    {
      hide WellFormed, RingsFirst, Render, Inv;
      TraceExtends(me, start, trace, SetVotes);
      trace := trace + [SetVotes];
      expected := if |ring| >= 1 then |ring| else 1;
    }

    /** pcs cluster node remove, and the awk prune: both delete the blocks of one address. */
    method RemoveFromConf(ip: string, ghost seen: set<string>)
      requires Valid() && ip != me && ip !in seen
      modifies this`conf, this`layout, this`trace
      ensures Valid() && trace == old(trace) + [Remove(ip, seen)] && Now() == Apply(old(Now()), Remove(ip, seen))
      ensures Now().nodes == Without(old(Now()).nodes, ip)
    {
      hide WellFormed, RingsFirst, Render, Inv, PruneFrom;
      PruneIsWithout(layout, ip);
      TraceExtends(me, start, trace, Remove(ip, seen));
      conf := Prune(conf, ip);
      layout := Pruned(layout, ip);
      trace := trace + [Remove(ip, seen)];
    }

    /** corosync-cfgtool -k on the id that conf gives an address. */
    method KillFromRing(ip: string, ghost seen: set<string>) returns (killed: Option<nat>)
      requires Valid() && ip != me && ip !in seen
      modifies this`ring, this`trace
      ensures Valid() && killed == IdOf(Now().nodes, ip)
      ensures killed.Some? ==> ring == old(ring) - {killed.value} && trace == old(trace) + [Kill(killed.value, ip, seen)]
      ensures killed.None? ==> ring == old(ring) && trace == old(trace)
    {
      hide WellFormed, RingsFirst, Render, Inv, LookupFrom, Decimal, NatOf;
      LookupInOrder(layout, ip);
      var text := Lookup(conf, ip);
      if text.None? { return None; }
      NatOfDecimal(IdOf(Nodes(layout), ip).value);
      var id := NatText(text.value);
      TraceExtends(me, start, trace, Kill(id, ip, seen));
      ring := ring - {id};
      trace := trace + [Kill(id, ip, seen)];
      return Some(id);
    }

    /** The ring changes by itself: members fail, leave or come back. */
    method RingChanges(present: set<nat>)
      requires Valid()
      modifies this`ring, this`trace
      ensures Valid() && trace == old(trace) + [RingIs(present)] && Now() == Apply(old(Now()), RingIs(present))
    {
      hide WellFormed, RingsFirst, Render, Inv;
      TraceExtends(me, start, trace, RingIs(present));
      ring := present;
      trace := trace + [RingIs(present)];
    }

    /** sync_nodeid_counter */
    method SyncNodeidCounter()
      requires Valid()
      modifies this`idFile, this`trace
      ensures Valid() && trace == old(trace) + [Sync] && Now() == Apply(old(Now()), Sync)
      ensures NextId(Now()) == if NextId(old(Now())) > MaxId(Now().nodes) then NextId(old(Now())) else MaxId(Now().nodes) + 1
    {
      hide WellFormed, RingsFirst, Render, Inv, IdTexts, MaxId, LegalRun, Run;
      ReadNodesOfText(layout);
      var maxId := LargestId(ReadNodes(conf));
      TraceExtends(me, start, trace, Sync);
      trace := trace + [Sync];
      if idFile.GetOr(2) <= maxId { idFile := Some(maxId + 1); }
    }

    /** The id loop: take the counter and raise it, again while conf uses the id taken. */
    method PickId() returns (id: nat)
      requires Valid()
      modifies this`idFile
      ensures id == FreeId(Nodes(layout), old(idFile).GetOr(2)) && idFile == Some(id + 1)
    {
      hide WellFormed, RingsFirst, Render, Inv, LegalRun, Run, IdTexts, IdsAsText, Decimal, FreeId, MaxId, UsesId, Nodes, RingAddresses, Addresses;
      ghost var nodes := Nodes(layout);
      ghost var from := idFile.GetOr(2);
      GrepReadsNodes(layout);
      id := idFile.GetOr(2);
      idFile := Some(idFile.GetOr(2) + 1);
      SkipUsed(nodes, from);
      var used := IdTexts(conf);
      while Decimal(id) in used
        invariant id >= from && idFile == Some(id + 1)
        invariant FreeId(nodes, id) == FreeId(nodes, from)
        modifies this`idFile
        decreases MaxId(nodes) + 1 - id
      {
        SkipUsed(nodes, id);
        id := idFile.value;
        idFile := Some(idFile.value + 1);
      }
      SkipUsed(nodes, id);
    }

    /** Insert an address under the next id that conf does not use. */
    method AddToConf(ip: string) returns (id: nat)
      requires Valid() && IsAddress(ip) && !Lists(Now().nodes, ip)
      modifies this`conf, this`layout, this`idFile, this`trace
      ensures Valid() && trace == old(trace) + [Assign(ip)] && Now() == Apply(old(Now()), Assign(ip))
      ensures Now().nodes == old(Now()).nodes + [Node(ip, id)] && id >= NextId(old(Now())) && NextId(Now()) == id + 1
    {
      hide WellFormed, RingsFirst, Render, Inv, InsertFrom, NewEntry, FreeId, Lists, LegalRun, Run, Merged, MaxId, Without, IdOf, IsAddress;
      TraceExtends(me, start, trace, Assign(ip));
      id := PickId();
      InsertIsAppend(layout, ip, id);
      InsertedWellFormed(layout, ip, id);
      conf := Insert(conf, ip, id);
      layout := Inserted(layout, ip, id);
      trace := trace + [Assign(ip)];
    }

    // ---- the script's functions -------------------------------------------

    /** The awk prune of one address, kept only if it leaves fewer ring0_addr lines. */
    method PruneOne(ip: string, ghost seen: set<string>) returns (done: bool)
      requires Valid() && ip != me && ip !in seen
      modifies this`conf, this`layout, this`trace
      ensures Valid() && Saw(old(trace), trace, seen)
      ensures Now().nodes == Without(old(Now()).nodes, ip) && done == Lists(old(Now()).nodes, ip)
      ensures !done ==> Now() == old(Now())
      ensures trace == if done then old(trace) + [Remove(ip, seen)] else old(trace)
    {
      hide WellFormed, RingsFirst, Render, Inv, LegalRun, Run, PruneFrom, RingAddresses, Saw;
      SawNothing(trace, seen);
      PruneIsWithout(layout, ip);
      GrepReadsNodes(layout);
      GrepReadsNodes(Pruned(layout, ip));
      WithoutShorter(Nodes(layout), ip);
      RenderNotEmpty(Pruned(layout, ip));
      var tmp := Prune(conf, ip);
      done := false;
      if |tmp| > 0 && |RingAddresses(tmp)| < |RingAddresses(conf)| {
        TraceExtends(me, start, trace, Remove(ip, seen));
        SawStep(trace, trace, Remove(ip, seen), seen);
        conf := tmp;
        layout := Pruned(layout, ip);
        trace := trace + [Remove(ip, seen)];
        done := true;
      }
    }

    /** prune_dead_conf_nodes: what is left is the writer and the nodes whose instance runs, in order. */
    method PruneDeadConfNodes(running: set<string>, raises: bool) returns (pruned: bool)
      requires Valid()
      modifies this`conf, this`layout, this`trace, this`runtime, this`expected
      ensures Valid() && Saw(old(trace), trace, running)
      ensures Now().nodes == Kept(old(Now()).nodes, me, running)
      ensures pruned && ring != {} ==> Quorate(Now()) && expected == |ring|
      ensures pruned ==> Loaded(Now())
      ensures NoJoin(|old(trace)|, trace)
      ensures pruned <==> Kept(old(Now()).nodes, me, running) != old(Now()).nodes
      ensures !pruned ==> Now() == old(Now())
    {
      hide WellFormed, RingsFirst, Render, Inv, LegalRun, Run, Lists, Saw, Minus, Among, Departed, Kept;
      ghost var nodes := Nodes(layout);
      SawNothing(trace, running);
      pruned := false;
      var ips := ConfAddresses();
      ghost var dead := Departed(ips, me, {}, running);
      MinusAtStart(nodes, ips, dead);
      for i := 0 to |ips|
        invariant Valid() && Saw(old(trace), trace, running)
        invariant Now().nodes == Minus(nodes, Among(ips[..i], dead))
        invariant !pruned ==> Now().nodes == nodes
        invariant pruned ==> exists n :: n in nodes && n.ip != me && n.ip !in running
        invariant NoJoin(|old(trace)|, trace)
        modifies this`conf, this`layout, this`trace
      {
        var ip := ips[i];
        AmongOneMore(ips, i, dead);
        DepartedAt(ips, i, me, running);
        if ip == me || ip in running { continue; }
        MinusOneMore(nodes, Among(ips[..i], dead), ip);
        ghost var before := trace;
        var done := PruneOne(ip, running);
        SawMore(old(trace), before, trace, running);
        if done {
          MinusIsFilter(nodes, Among(ips[..i], dead));
          pruned := true;
        }
      }
      assert ips[..|ips|] == ips;
      PrunedIsKept(nodes, me, running);
      KeptIsPart(nodes, me, running);
      if pruned {
        SawStep(old(trace), trace, Reload(raises), running);
        ReloadCorosync(raises);
        SawStep(old(trace), trace, Pin, running);
        PinExpectedVotes();
      }
    }

    /** cleanup_offline_nodes: throw departed nodes out of the ring, pin, then delete the ones that are offline from conf. */
    method CleanupOfflineNodes(live: set<string>, running: set<string>, killable: set<string>,
                               offline: set<string>, removable: set<string>, raises: bool)
      requires Valid()
      modifies this`conf, this`layout, this`trace, this`runtime, this`ring, this`expected
      ensures Valid() && Saw(old(trace), trace, running) && idFile == old(idFile)
      ensures var departed := Departed(Addresses(old(Now()).nodes), me, live, running);
        && Now().nodes == Minus(old(Now()).nodes, departed * offline * removable)
        && (forall id :: id in ring <==> id in old(ring) && !IdAmong(old(Now()).nodes, departed * killable, id))
        && (departed * offline != {} ==> Loaded(Now()))
        && RemovesPinned(start, |old(trace)|, trace)
        && (departed == {} ==> Now() == old(Now()))
        && (departed != {} && ring != {} ==> Quorate(Now()) && expected == |ring|)
    {
      hide WellFormed, RingsFirst, Render, Inv, LegalRun, Run, Lists, Saw;
      ghost var nodes := Nodes(layout);
      SawNothing(trace, running);
      MinusNothing(nodes);
      var ips := ConfAddresses();
      ghost var departed := Departed(ips, me, live, running);
      var toRemove := ListDeparted(ips, live, running);
      if toRemove == [] {
        EmptyList(toRemove, departed);
        assert departed * offline * removable == {} && departed * killable == {} && departed * offline == {};
        return;
      }
      assert toRemove[0] in departed;
      KillDeparted(toRemove, killable, running);
      assert Among(toRemove, killable) == departed * killable;
      SawStep(old(trace), trace, Pin, running);
      NoRemoval(start, |old(trace)|, trace, Pin);
      PinExpectedVotes();
      ghost var pinned := trace;
      RemoveOffline(toRemove, offline, removable, raises, running);
      SawPrefix(old(trace), pinned, running);
      SawPrefix(pinned, trace, running);
      RemovalsMore(start, |old(trace)|, pinned, trace);
      SawMore(old(trace), pinned, trace, running);
      SawStep(old(trace), trace, SetVotes, running);
      NoRemoval(start, |old(trace)|, trace, SetVotes);
      assert Among(toRemove, offline * removable) == departed * offline * removable;
      assert Among(toRemove, offline) == departed * offline;
      SetLiveVotes();
    }

    /** The kill loop of a cleanup: exactly the ids that conf gives the killable ones leave the ring. */
    method KillDeparted(toRemove: seq<string>, killable: set<string>, ghost running: set<string>)
      requires Valid() && forall ip :: ip in toRemove ==> ip != me && ip !in running
      modifies this`ring, this`trace
      ensures Valid() && Saw(old(trace), trace, running) && Now() == old(Now()).(ring := ring)
      ensures RemovesPinned(start, |old(trace)|, trace)
      ensures forall id :: id in ring <==> id in old(ring) && !IdAmong(Now().nodes, Among(toRemove, killable), id)
    {
      hide WellFormed, RingsFirst, Render, Inv, LegalRun, Run, Saw, Lists;
      ghost var nodes := Nodes(layout);
      SawNothing(trace, running);
      AmongNone(toRemove, killable);
      for i := 0 to |toRemove|
        invariant Valid() && Saw(old(trace), trace, running) && Now() == old(Now()).(ring := ring)
        invariant RemovesPinned(start, |old(trace)|, trace)
        invariant forall id :: id in ring <==> id in old(ring) && !IdAmong(nodes, Among(toRemove[..i], killable), id)
      {
        assert toRemove[i] in toRemove;
        AmongOneMore(toRemove, i, killable);
        IdAmongMore(nodes, Among(toRemove[..i], killable), toRemove[i]);
        if toRemove[i] in killable {
          ghost var id := IdOf(Now().nodes, toRemove[i]);
          if id.Some? {
            SawStep(old(trace), trace, Kill(id.value, toRemove[i], running), running);
            NoRemoval(start, |old(trace)|, trace, Kill(id.value, toRemove[i], running));
          }
          var killed := KillFromRing(toRemove[i], running);
        }
      }
      assert toRemove[..|toRemove|] == toRemove;
    }

    /** The first loop of a cleanup: who is configured, not the writer, not live, and runs nowhere. */
    method ListDeparted(ips: seq<string>, live: set<string>, running: set<string>) returns (gone: seq<string>)
      ensures forall ip :: ip in gone <==> ip in Departed(ips, me, live, running)
    {
      gone := [];
      for i := 0 to |ips|
        invariant forall ip :: ip in gone <==> ip in Departed(ips[..i], me, live, running)
      {
        assert ips[..i + 1] == ips[..i] + [ips[i]];
        if ips[i] == me { continue; }
        if live != {} && ips[i] in live { continue; }
        if ips[i] in running { continue; }
        gone := gone + [ips[i]];
      }
      assert ips[..|ips|] == ips;
    }

    /** The last loop of a cleanup, and its reload. */
    method RemoveOffline(toRemove: seq<string>, offline: set<string>, removable: set<string>, raises: bool, ghost running: set<string>)
      requires Valid() && forall ip :: ip in toRemove ==> ip != me && ip !in running
      modifies this`conf, this`layout, this`trace, this`runtime, this`expected
      ensures Valid() && Saw(old(trace), trace, running)
      ensures Now().nodes == Minus(old(Now()).nodes, Among(toRemove, offline * removable))
      ensures Among(toRemove, offline) != {} ==> Loaded(Now())
      ensures Pinned(old(Now())) ==> RemovesPinned(start, |old(trace)|, trace)
    {
      hide WellFormed, RingsFirst, Render, Inv, LegalRun, Run, Without, Saw;
      ghost var nodes := Nodes(layout);
      SawNothing(trace, running);
      ghost var gone := offline * removable;
      var changed := false;
      MinusAtStart(nodes, toRemove, gone);
      AmongNone(toRemove, offline);
      for i := 0 to |toRemove|
        invariant Valid() && Saw(old(trace), trace, running)
        invariant Now().nodes == Minus(nodes, Among(toRemove[..i], gone)) && Now() == old(Now()).(nodes := Now().nodes)
        invariant changed == (Among(toRemove[..i], offline) != {})
        invariant Pinned(old(Now())) ==> RemovesPinned(start, |old(trace)|, trace)
        modifies this`conf, this`layout, this`trace
      {
        AmongOneMore(toRemove, i, gone);
        AmongOneMore(toRemove, i, offline);
        assert toRemove[i] in toRemove;
        MinusOneMore(nodes, Among(toRemove[..i], gone), toRemove[i]);
        if toRemove[i] in offline {
          if toRemove[i] in removable {
            SawStep(old(trace), trace, Remove(toRemove[i], running), running);
            if Pinned(old(Now())) { PinnedRemoval(start, |old(trace)|, trace, Remove(toRemove[i], running)); }
            RemoveFromConf(toRemove[i], running);
          }
          changed := true;
        }
      }
      assert toRemove[..|toRemove|] == toRemove;
      if changed {
        SawStep(old(trace), trace, Reload(raises), running);
        if Pinned(old(Now())) { NoRemoval(start, |old(trace)|, trace, Reload(raises)); }
        ReloadCorosync(raises);
      }
    }

    /** recover_offline_asg_nodes: strips departed nodes that corosync itself has already forgotten. */
    method RecoverOfflineAsgNodes(live: set<string>, running: set<string>, removable: set<string>)
      requires Valid()
      modifies this`conf, this`layout, this`trace
      ensures Valid() && Saw(old(trace), trace, running)
      ensures Now().nodes == if live == {} then old(Now()).nodes else
        Minus(old(Now()).nodes, Departed(Addresses(old(Now()).nodes), me, live, running) * removable - runtime.Values)
    {
      hide WellFormed, RingsFirst, Render, Inv, LegalRun, Run, Without, Saw;
      SawNothing(trace, running);
      if live == {} { return; }
      ghost var nodes := Nodes(layout);
      var ips := ConfAddresses();
      ghost var gone := Departed(ips, me, live, running) * removable - runtime.Values;
      MinusAtStart(nodes, ips, gone);
      for i := 0 to |ips|
        invariant Valid() && Saw(old(trace), trace, running)
        invariant Now().nodes == Minus(nodes, Among(ips[..i], gone))
      {
        AmongOneMore(ips, i, gone);
        if ips[i] == me { continue; }
        if ips[i] in live { continue; }
        if ips[i] in running { continue; }
        if ips[i] !in runtime.Values && ips[i] in removable {
          MinusOneMore(nodes, Among(ips[..i], gone), ips[i]);
          SawStep(old(trace), trace, Remove(ips[i], running), running);
          RemoveFromConf(ips[i], running);
        }
      }
      assert ips[..|ips|] == ips && Among(ips, gone) == gone;
    }

    /**
     add_new_nodes: prune, raise the counter, then insert the authorized pending nodes one at
     a time, while the ring changes. The votes were last pinned at `pin`, if at all.
     */
    method AddNewNodes(pending: seq<string>, authorized: set<string>, running: set<string>, raises: bool, rings: seq<set<nat>>)
      returns (ghost pin: nat)
      requires Valid() && forall ip :: ip in pending ==> IsAddress(ip)
      modifies this`conf, this`layout, this`trace, this`runtime, this`ring, this`expected, this`idFile
      ensures Valid() && Saw(old(trace), trace, running)
      ensures pending == [] ==> Now() == old(Now())
      ensures pending != [] ==> Kept(old(Now()).nodes, me, running) <= Now().nodes
      ensures forall ip :: ip in pending && ip in authorized ==> Lists(Now().nodes, ip) && ip in runtime.Values
      ensures forall n :: n in Now().nodes && n !in old(Now()).nodes ==>
        n.ip in pending && n.ip in authorized && n.id >= NextId(old(Now()))
      ensures |old(trace)| <= pin <= |trace|
      ensures Run(start, trace[..pin]).expected == old(expected) || Pinned(Run(start, trace[..pin]))
      ensures VotesFrom(Run(start, trace[..pin]), Now(), SomeWanted(pending, authorized), raises)
      ensures pending != [] ==> SyncedFirst(|old(trace)|, trace)
    {
      hide WellFormed, RingsFirst, Render, Inv, LegalRun, Run, FreeId, IsAddress, Kept, Saw, SomeWanted, Apply, MaxId, Quorate, Lists;
      SawNothing(trace, running);
      pin := |trace|;
      assert trace[..pin] == trace;
      if pending == [] {
        NoneWanted(authorized);
        return;
      }
      var pruned := PruneDeadConfNodes(running, raises);
      SawPrefix(old(trace), trace, running);
      ghost var pinned := trace;
      pin := |pinned|;
      ghost var base := Now();
      assert trace[..pin] == trace && base == Run(start, pinned) && (if pruned then Pinned(base) else base.expected == old(expected));
      SawStep(old(trace), trace, Sync, running);
      SyncNodeidCounter();
      KeptIsPart(old(Now()).nodes, me, running);
      SyncRaises(old(Now()), Now());
      ghost var synced := trace;
      JoinEach(pending, authorized, running, raises, rings);
      SawMore(old(trace), synced, trace, running);
      SawPrefix(synced, trace, running);
      assert trace[|pinned|] == synced[|pinned|] == Sync && forall k :: 0 <= k < |pinned| ==> trace[k] == pinned[k];
      assert trace[..pin] == pinned;
    }

    /** The loop over the pending nodes, with the ring as it is before each. */
    method JoinEach(pending: seq<string>, authorized: set<string>, running: set<string>, raises: bool, rings: seq<set<nat>>)
      requires Valid() && forall ip :: ip in pending ==> IsAddress(ip)
      modifies this`conf, this`layout, this`trace, this`runtime, this`ring, this`expected, this`idFile
      ensures Valid() && Saw(old(trace), trace, running)
      ensures old(Now()).nodes <= Now().nodes
      ensures forall ip :: ip in pending && ip in authorized ==> Lists(Now().nodes, ip) && ip in runtime.Values
      ensures forall n :: n in Now().nodes && n !in old(Now()).nodes ==>
        n.ip in pending && n.ip in authorized && n.id >= NextId(old(Now()))
      ensures VotesFrom(old(Now()), Now(), SomeWanted(pending, authorized), raises)
    {
      hide WellFormed, RingsFirst, Render, Inv, LegalRun, Run, FreeId, IsAddress, AllJoined, OnlyJoined, Added, Saw, VotesFrom, Raised, SomeWanted, Apply, MaxId, Quorate, Lists;
      SawNothing(trace, running);
      ghost var base := Now();
      ghost var kept, least := base.nodes, NextId(base);
      ghost var wanted := set ip | ip in pending && ip in authorized;
      NoVotesYet(base, pending, authorized, raises);
      NoneJoined(kept, pending, wanted, least, base);
      for i := 0 to |pending|
        invariant Valid() && Saw(old(trace), trace, running)
        invariant kept <= Now().nodes && NextId(Now()) >= least
        invariant AllJoined(pending[..i], wanted, Now()) && OnlyJoined(kept, wanted, least, Now())
        invariant VotesFrom(base, Now(), SomeWanted(pending[..i], authorized), raises)
      {
        var ip := pending[i];
        WantedOneMore(pending, i, authorized);
        if i < |rings| {
          ghost var still := Now();
          SawStep(old(trace), trace, RingIs(rings[i]), running);
          RingChanges(rings[i]);
          RingKeepsJoined(still, Now(), rings[i], pending[..i], kept, wanted, least, base, SomeWanted(pending[..i], authorized), raises);
        }
        ghost var before, history := Now(), trace;
        if ip in authorized {
          AddOne(ip, raises, running);
          SawMore(old(trace), history, trace, running);
          AddedKeeps(before, Now(), ip, kept, wanted, least, pending, i);
          VotesMore(base, before, Now(), SomeWanted(pending[..i], authorized), raises);
        } else {
          NotWanted(pending, i, wanted, Now());
        }
      }
      assert pending[..|pending|] == pending;
      EveryoneJoined(kept, pending, wanted, least, Now());
    }

    /** One pending node: into conf unless its exact address is there already, then a reload. */
    method AddOne(ip: string, raises: bool, ghost running: set<string>)
      requires Valid() && IsAddress(ip)
      modifies this`conf, this`layout, this`trace, this`runtime, this`expected, this`idFile
      ensures Valid() && Saw(old(trace), trace, running)
      ensures Added(old(Now()), Now(), ip) && Raised(old(Now()), Now(), raises)
    {
      hide WellFormed, RingsFirst, Render, Inv, LegalRun, Run, FreeId, IsAddress, Saw;
      SawNothing(trace, running);
      var ips := ConfAddresses();
      AddressListed(Nodes(layout), ip);
      if ip !in ips {
        SawStep(old(trace), trace, Assign(ip), running);
        var id := AddToConf(ip);
        assert Now().nodes[|Now().nodes| - 1] == Node(ip, id);
      }
      SawStep(old(trace), trace, Reload(raises), running);
      ReloadCorosync(raises);
      NowIsGood();
      ListedIsLoaded(me, Now(), ip, old(runtime));
    }
  }

  /**
   What adding one address did: it is in conf and known to corosync; nothing else changed
   in conf if it was there already, and otherwise conf gained one entry under a fresh id.
   */
  ghost predicate Added(before: State, after: State, ip: string) {
    && Lists(after.nodes, ip) && ip in after.runtime.Values
    && (forall v :: v in before.runtime.Values ==> v in after.runtime.Values)
    && NextId(after) >= NextId(before)
    && (if Lists(before.nodes, ip) then after.nodes == before.nodes
        else exists id :: id >= NextId(before) && after.nodes == before.nodes + [Node(ip, id)])
  }

  /** The ring stayed, conf did not shrink, and a reload at its end may have raised the expected votes to its size. */
  ghost predicate Raised(before: State, after: State, raises: bool) {
    && after.ring == before.ring && |before.nodes| <= |after.nodes|
    && after.expected == if raises && before.expected < |after.nodes| then |after.nodes| else before.expected
  }

  /** The expected votes are those of the ring there is, if it has members. */
  predicate Pinned(s: State) { s.ring != {} ==> s.expected == |s.ring| }

  /** The expected votes are still those of an earlier state, or, after joins whose reloads raise them, those of conf if that is larger. */
  predicate VotesFrom(base: State, now: State, joined: bool, raises: bool) {
    now.expected == if joined && raises && base.expected < |now.nodes| then |now.nodes| else base.expected
  }

  /** Some pending node is let in. */
  predicate SomeWanted(pending: seq<string>, authorized: set<string>) {
    exists ip :: ip in pending && ip in authorized
  }

  lemma WantedOneMore(pending: seq<string>, i: nat, authorized: set<string>)
    requires i < |pending|
    ensures SomeWanted(pending[..i + 1], authorized) <==> SomeWanted(pending[..i], authorized) || pending[i] in authorized
  {
    assert pending[..i + 1] == pending[..i] + [pending[i]];
    if pending[i] in authorized { assert pending[i] in pending[..i + 1]; }
    if SomeWanted(pending[..i], authorized) {
      var ip :| ip in pending[..i] && ip in authorized;
      assert ip in pending[..i + 1];
    }
  }

  lemma NoneWanted(authorized: set<string>)
    ensures !SomeWanted([], authorized)
  {
  }

  lemma NoVotesYet(s: State, pending: seq<string>, authorized: set<string>, raises: bool)
    ensures VotesFrom(s, s, SomeWanted(pending[..0], authorized), raises)
  {
    NoneWanted(authorized);
    assert pending[..0] == [];
  }

  lemma VotesMore(base: State, before: State, after: State, joined: bool, raises: bool)
    requires VotesFrom(base, before, joined, raises) && Raised(before, after, raises)
    ensures VotesFrom(base, after, true, raises)
  {
  }

  lemma RingKeepsJoined(before: State, after: State, ring: set<nat>, ips: seq<string>, kept: seq<Node>, wanted: set<string>, least: nat,
                        base: State, joined: bool, raises: bool)
    requires after == Apply(before, RingIs(ring))
    ensures after.nodes == before.nodes && NextId(after) == NextId(before)
    ensures AllJoined(ips, wanted, before) ==> AllJoined(ips, wanted, after)
    ensures OnlyJoined(kept, wanted, least, before) ==> OnlyJoined(kept, wanted, least, after)
    ensures VotesFrom(base, before, joined, raises) ==> VotesFrom(base, after, joined, raises)
  {
  }

  lemma QuorumFrom(base: State, now: State, joined: bool, raises: bool)
    requires VotesFrom(base, now, joined, raises)
    ensures Quorate(now) <==> base.expected < 2 * |now.ring| && !(joined && raises && |now.nodes| >= 2 * |now.ring|)
  {
  }

  /** The wanted ones among some addresses are in conf and known to corosync. */
  ghost predicate AllJoined(ips: seq<string>, wanted: set<string>, s: State) {
    forall ip :: ip in ips && ip in wanted ==> Lists(s.nodes, ip) && ip in s.runtime.Values
  }

  /** Whatever conf lists besides `kept` is wanted and has an id of at least `least`. */
  ghost predicate OnlyJoined(kept: seq<Node>, wanted: set<string>, least: nat, s: State) {
    forall n :: n in s.nodes && n !in kept ==> n.ip in wanted && n.id >= least
  }

  lemma NoneJoined(kept: seq<Node>, pending: seq<string>, wanted: set<string>, least: nat, s: State)
    requires kept == s.nodes
    ensures AllJoined(pending[..0], wanted, s) && OnlyJoined(kept, wanted, least, s)
  {
  }

  lemma EveryoneJoined(kept: seq<Node>, pending: seq<string>, wanted: set<string>, least: nat, s: State)
    requires AllJoined(pending, wanted, s) && OnlyJoined(kept, wanted, least, s)
    ensures forall ip :: ip in pending && ip in wanted ==> Lists(s.nodes, ip) && ip in s.runtime.Values
    ensures forall n :: n in s.nodes && n !in kept ==> n.ip in wanted && n.id >= least
  {
  }

  lemma NotWanted(pending: seq<string>, i: nat, wanted: set<string>, s: State)
    requires i < |pending| && pending[i] !in wanted && AllJoined(pending[..i], wanted, s)
    ensures AllJoined(pending[..i + 1], wanted, s)
  {
    hide Lists;
    assert pending[..i + 1] == pending[..i] + [pending[i]];
  }

  lemma AddedKeeps(before: State, after: State, ip: string, kept: seq<Node>, wanted: set<string>, least: nat,
                   pending: seq<string>, i: nat)
    requires i < |pending| && ip == pending[i] && ip in wanted && Added(before, after, ip)
    requires kept <= before.nodes && NextId(before) >= least
    requires AllJoined(pending[..i], wanted, before) && OnlyJoined(kept, wanted, least, before)
    ensures kept <= after.nodes && NextId(after) >= least
    ensures AllJoined(pending[..i + 1], wanted, after) && OnlyJoined(kept, wanted, least, after)
  {
    hide NextId;
    assert pending[..i + 1] == pending[..i] + [ip];
    assert before.nodes <= after.nodes;
    forall n | n in before.nodes ensures n in after.nodes {
      var k :| 0 <= k < |before.nodes| && before.nodes[k] == n;
      assert after.nodes[k] == n;
    }
  }

  /** What AWS, pcs, corosync and the clock answer during one pass of the main loop. */
  datatype Answers = Answers(
    ring: set<nat>, cleaned: set<nat>, later: set<nat>,  // the ring at first, before the cleanup, before the joins
    rings: seq<set<nat>>,                            // the ring before each join
    live: set<string>, running: set<string>,         // in service in the group; running in EC2
    killable: set<string>, offline: set<string>,     // cfgtool -k succeeds; offline in corosync
    removable: set<string>, raises: bool,            // pcs remove succeeds; a reload raises expected votes
    now: int, joiner: bool,                          // the clock; some node carries the join tag
    pending: seq<string>, authorized: set<string>)   // tagged and not online; accepted by pcs host auth

  /** Some configured node besides the writer is not live. */
  predicate StaleIn(nodes: seq<Node>, me: string, live: set<string>) {
    exists n :: n in nodes && n.ip != me && n.ip !in live
  }

  /**
   A pass that is over: what it was told, what its gate saw, and its part of the history,
   with the moment the gate looked at conf.
   */
  datatype Turn = Turn(answers: Answers, tick: Tick, begin: nat, middle: nat, end: nat)

  /** What the cleanup of a pass leaves of the ring: all but the ids of departed nodes that could be thrown out. */
  ghost predicate RingLeft(nodes: seq<Node>, me: string, a: Answers, ring: set<nat>) {
    forall id :: id in ring <==> id in a.cleaned && !IdAmong(nodes, Departed(Addresses(nodes), me, a.live, a.running) * a.killable, id)
  }

  lemma RingLeftIs(nodes: seq<Node>, me: string, a: Answers, ring: set<nat>)
    requires var departed := Departed(Addresses(nodes), me, a.live, a.running);
      forall id :: id in ring <==> id in a.cleaned && !IdAmong(nodes, departed * a.killable, id)
    ensures RingLeft(nodes, me, a, ring)
  {
    hide IdAmong, Departed, Addresses;
  }

  /**
   What the cleanup and the recovery of a pass leave of conf, given whom corosync still knows:
   all but the departed nodes that could be removed and are offline or, if anyone is live,
   unknown to corosync.
   */
  ghost predicate NodesLeft(nodes: seq<Node>, me: string, a: Answers, known: set<string>, left: seq<Node>) {
    forall n :: n in left <==>
      && n in nodes
      && (|| n.ip == me || n.ip in a.live || n.ip in a.running || n.ip !in a.removable
          || (n.ip !in a.offline && (a.live == {} || n.ip in known)))
  }

  lemma NodesLeftIs(nodes: seq<Node>, me: string, a: Answers, known: set<string>, cleaned: seq<Node>, left: seq<Node>)
    requires cleaned == Minus(nodes, Departed(Addresses(nodes), me, a.live, a.running) * a.offline * a.removable)
    requires left == if a.live == {} then cleaned
      else Minus(cleaned, Departed(Addresses(cleaned), me, a.live, a.running) * a.removable - known)
    ensures NodesLeft(nodes, me, a, known, left)
  {
    hide Minus, Addresses;
    MinusIsFilter(nodes, Departed(Addresses(nodes), me, a.live, a.running) * a.offline * a.removable);
    MinusIsFilter(cleaned, Departed(Addresses(cleaned), me, a.live, a.running) * a.removable - known);
    forall n | n in nodes ensures n.ip in Addresses(nodes) {
      ListedNode(nodes, n);
    }
    forall n | n in cleaned ensures n.ip in Addresses(cleaned) {
      ListedNode(cleaned, n);
    }
  }

  /** A pass that began at moment `from` opened with a pin of the ring it found. */
  predicate OpensWithPin(from: nat, trace: seq<Event>, a: Answers) {
    && from + 3 <= |trace|
    && trace[from] == RingIs(a.ring) && trace[from + 1] == Pin && trace[from + 2] == RingIs(a.cleaned)
  }

  function Ticks(turns: seq<Turn>): seq<Tick> {
    seq(|turns|, i requires 0 <= i < |turns| => turns[i].tick)
  }

  /**
   What a pass did follows from what it was told: its removals and kills were decided on
   its own EC2 answer, it pinned first, its cleanup and recovery left of the ring and of conf
   what they should, and its gate saw its own clock, joiners and stale entries.
   */
  ghost predicate Decided(me: string, start: State, trace: seq<Event>, turn: Turn) {
    && turn.begin < turn.middle <= turn.end <= |trace|
    && OpensWithPin(turn.begin, trace, turn.answers)
    && RingLeft(Run(start, trace[..turn.begin]).nodes, me, turn.answers, Run(start, trace[..turn.middle - 1]).ring)
    && NodesLeft(Run(start, trace[..turn.begin]).nodes, me, turn.answers,
                 Run(start, trace[..turn.middle]).runtime.Values, Run(start, trace[..turn.middle]).nodes)
    && Saw(trace[..turn.begin], trace[..turn.end], turn.answers.running)
    && turn.tick == Tick(turn.answers.now, StaleIn(Run(start, trace[..turn.middle]).nodes, me, turn.answers.live), turn.answers.joiner)
  }

  /** A pass begins where the one before it ended. */
  predicate Abuts(turns: seq<Turn>, p: nat)
    requires p < |turns|
  {
    turns[p].begin == if p == 0 then 0 else turns[p - 1].end
  }

  /** The passes follow one another and together make up the whole history. */
  ghost predicate MadeOf(me: string, start: State, trace: seq<Event>, turns: seq<Turn>) {
    && (forall p :: 0 <= p < |turns| ==> Decided(me, start, trace, turns[p]))
    && (forall p :: 0 <= p < |turns| ==> Abuts(turns, p))
    && |trace| == if turns == [] then 0 else turns[|turns| - 1].end
  }

  lemma StillDecided(me: string, start: State, trace: seq<Event>, trace': seq<Event>, turn: Turn)
    requires Decided(me, start, trace, turn) && trace <= trace'
    ensures Decided(me, start, trace', turn)
  {
    hide Saw, StaleIn, Run, RingLeft;
    assert trace'[..turn.begin] == trace[..turn.begin];
    assert trace'[..turn.middle - 1] == trace[..turn.middle - 1];
    assert trace'[..turn.middle] == trace[..turn.middle];
    assert trace'[..turn.end] == trace[..turn.end];
  }

  lemma OneMoreTurn(me: string, start: State, trace: seq<Event>, turns: seq<Turn>, trace': seq<Event>, turn: Turn)
    requires MadeOf(me, start, trace, turns) && trace <= trace'
    requires Decided(me, start, trace', turn) && turn.begin == |trace| && turn.end == |trace'|
    ensures MadeOf(me, start, trace', turns + [turn])
  {
    hide Decided;
    var more := turns + [turn];
    forall p | 0 <= p < |more| ensures Decided(me, start, trace', more[p]) && Abuts(more, p) {
      if p < |turns| {
        StillDecided(me, start, trace, trace', turns[p]);
        assert Abuts(turns, p);
      }
    }
  }

  /** The pass an event belongs to. */
  lemma {:induction false} PassOf(turns: seq<Turn>, k: nat, n: nat) returns (p: nat)
    requires forall p :: 0 <= p < |turns| ==> Abuts(turns, p)
    requires n <= |turns| && k < if n == 0 then 0 else turns[n - 1].end
    ensures p < n && turns[p].begin <= k < turns[p].end
  {
    if n > 1 && k < turns[n - 2].end {
      p := PassOf(turns, k, n - 1);
    } else {
      p := n - 1;
      assert Abuts(turns, p);
    }
  }

  lemma DecidedInPass(me: string, start: State, trace: seq<Event>, turns: seq<Turn>, k: nat) returns (p: nat)
    requires MadeOf(me, start, trace, turns) && k < |trace| && (trace[k].Remove? || trace[k].Kill?)
    ensures p < |turns| && turns[p].begin <= k < turns[p].end && trace[k].seen == turns[p].answers.running
  {
    hide Run, StaleIn;
    p := PassOf(turns, k, |turns|);
    assert Decided(me, start, trace, turns[p]);
    assert trace[..turns[p].end][k] == trace[k];
  }

  lemma StaleListed(nodes: seq<Node>, me: string, live: set<string>)
    ensures var ips := Addresses(nodes);
      StaleIn(nodes, me, live) <==> exists k :: 0 <= k < |ips| && ips[k] != me && ips[k] !in live
  {
    var ips := Addresses(nodes);
    if StaleIn(nodes, me, live) {
      var n :| n in nodes && n.ip != me && n.ip !in live;
      var k :| 0 <= k < |nodes| && nodes[k] == n;
      assert ips[k] == n.ip;
    }
    forall k | 0 <= k < |ips| && ips[k] != me && ips[k] !in live ensures StaleIn(nodes, me, live) {
      assert nodes[k] in nodes;
    }
  }

  /** The main loop: the cluster, the time of the first stale pass, and the passes so far. */
  class MainLoop {
    const cluster: Cluster
    var staleSince: int
    ghost var turns: seq<Turn>

    ghost predicate Valid()
      reads this, cluster
    {
      cluster.Valid() && MadeOf(cluster.me, cluster.start, cluster.trace, turns) && staleSince == Since(Ticks(turns), |turns|)
    }

    constructor (cluster: Cluster)
      requires cluster.Valid() && cluster.trace == []
      ensures this.cluster == cluster && Valid() && turns == []
    {
      this.cluster := cluster;
      this.staleSince := 0;
      this.turns := [];
    }

    /**
     Removal safety: an entry that is in conf at one moment of the history and gone at a
     later one was removed by a pass in between whose EC2 answer did not list its address
     as running; it is never the writer's.
     */
    lemma RemovalSafe(i: nat, j: nat, n: Node)
      requires Valid() && i <= j <= |cluster.trace|
      requires n in Run(cluster.start, cluster.trace[..i]).nodes && n !in Run(cluster.start, cluster.trace[..j]).nodes
      ensures n.ip != cluster.me
      ensures exists p :: 0 <= p < |turns| && i < turns[p].end && turns[p].begin < j && n.ip !in turns[p].answers.running
    {
      hide WellFormed, RingsFirst, Render, Inv, MadeOf, Run, LegalRun;
      RemovedWasGone(cluster.me, cluster.start, cluster.trace, i, j, n);
      var k :| i <= k < j && cluster.trace[k].Remove? && cluster.trace[k].ip == n.ip && n.ip !in cluster.trace[k].seen;
      var p := DecidedInPass(cluster.me, cluster.start, cluster.trace, turns, k);
    }

    /**
     Kill safety: an id that corosync-cfgtool -k throws out of the ring belonged in conf,
     at that moment, to an address other than the writer's which the EC2 answer of that
     very pass did not list as running.
     */
    lemma KillSafe(k: nat)
      requires Valid() && k < |cluster.trace| && cluster.trace[k].Kill?
      ensures Node(cluster.trace[k].ip, cluster.trace[k].id) in Run(cluster.start, cluster.trace[..k]).nodes
      ensures cluster.trace[k].ip != cluster.me
      ensures exists p :: 0 <= p < |turns| && turns[p].begin <= k < turns[p].end && cluster.trace[k].ip !in turns[p].answers.running
    {
      hide WellFormed, RingsFirst, Render, Inv, MadeOf, Run;
      var p := DecidedInPass(cluster.me, cluster.start, cluster.trace, turns, k);
      var nodes := Run(cluster.start, cluster.trace[..k]).nodes;
      assert Legal(cluster.me, Run(cluster.start, cluster.trace[..k]), cluster.trace[k]);
      IdOfIsMember(nodes, cluster.trace[k].ip);
      assert Node(cluster.trace[k].ip, cluster.trace[k].id) in nodes;
    }

    /**
     And none is missed: after the cleanup of each pass the ring is the one there was before
     it without the ids that conf gave the departed addresses which could be thrown out.
     */
    lemma KillsExactly(p: nat, id: nat)
      requires Valid() && p < |turns|
      ensures var a := turns[p].answers; var nodes := Run(cluster.start, cluster.trace[..turns[p].begin]).nodes;
        id in Run(cluster.start, cluster.trace[..turns[p].middle - 1]).ring <==>
          id in a.cleaned && forall ip :: IdOf(nodes, ip) == Some(id) ==> ip == cluster.me || ip in a.live || ip in a.running || ip !in a.killable
    {
      hide WellFormed, RingsFirst, Render, Inv, Run, LegalRun, StaleIn, Saw;
      assert Decided(cluster.me, cluster.start, cluster.trace, turns[p]);
      var (a, nodes) := (turns[p].answers, Run(cluster.start, cluster.trace[..turns[p].begin]).nodes);
      forall ip | IdOf(nodes, ip) == Some(id) ensures ip in Addresses(nodes) {
        IdOfIsMember(nodes, ip);
        AddressListed(nodes, ip);
      }
    }

    /**
     The same for conf: an entry that cleanup and recovery find is left by them exactly if its
     node is the writer, live or running, could not be removed, or is neither offline nor, with
     anyone live, unknown to corosync.
     */
    lemma RemovesExactly(p: nat, n: Node)
      requires Valid() && p < |turns| && n in Run(cluster.start, cluster.trace[..turns[p].begin]).nodes
      ensures var a := turns[p].answers; var left := Run(cluster.start, cluster.trace[..turns[p].middle]);
        n in left.nodes <==>
          (|| n.ip == cluster.me || n.ip in a.live || n.ip in a.running || n.ip !in a.removable
           || (n.ip !in a.offline && (a.live == {} || n.ip in left.runtime.Values)))
    {
      hide WellFormed, RingsFirst, Render, Inv, Run, LegalRun, StaleIn, Saw;
      assert Decided(cluster.me, cluster.start, cluster.trace, turns[p]);
    }

    /** So over the whole history an id always stands for the same address. */
    lemma IdsStay(i: nat, j: nat, id: nat, ip: string, ip': string)
      requires Valid() && i <= j <= |cluster.trace|
      requires Bound(Run(cluster.start, cluster.trace[..i]), id, ip) && Bound(Run(cluster.start, cluster.trace[..j]), id, ip')
      ensures ip == ip'
    {
      hide WellFormed, RingsFirst, Render, Inv, MadeOf, Run, LegalRun;
      IdsNeverReused(cluster.me, cluster.start, cluster.trace, i, j, id, ip, ip');
    }

    /** And while some node keeps asking to join, two attempts are less than two minutes and two pass gaps apart. */
    lemma JoinersWait(a: nat, b: nat, gap: nat)
      requires Valid() && a < b < |turns| && Clocked(Ticks(turns))
      requires forall k :: a <= k <= b ==> turns[k].answers.joiner
      requires forall k :: a <= k < b ==> Ticks(turns)[k + 1].now - Ticks(turns)[k].now <= gap
      requires forall k :: a < k < b ==> !Attempts(Ticks(turns), k)
      ensures turns[b].answers.now - turns[a].answers.now < STALE_FORCE_SECS + 2 * gap
    {
      hide WellFormed, RingsFirst, Render, Inv, Run, LegalRun, StaleIn, Saw, Clocked, Attempts;
      forall k | a <= k <= b ensures Ticks(turns)[k].pending && Ticks(turns)[k].now == turns[k].answers.now {
        assert Decided(cluster.me, cluster.start, cluster.trace, turns[k]);
      }
      WaitBetweenAttempts(Ticks(turns), a, b, gap);
    }

    /** The check before joining: an address that is neither the writer's nor live. */
    method SeesStale(live: set<string>) returns (stale: bool)
      requires cluster.Valid()
      ensures stale == StaleIn(cluster.Now().nodes, cluster.me, live)
    {
      hide WellFormed, RingsFirst, Render, Inv, LegalRun, Run;
      var ips := cluster.ConfAddresses();
      StaleListed(cluster.Now().nodes, cluster.me, live);
      stale := false;
      for i := 0 to |ips|
        invariant !stale && forall k :: 0 <= k < i ==> ips[k] == cluster.me || ips[k] in live
      {
        if ips[i] == cluster.me { continue; }
        if live != {} && ips[i] in live { continue; }
        stale := true;
        break;
      }
    }

    /**
     One pass; joins run exactly when the gate says so, on what cleanup and recovery left.
     `pin` is the moment of the pass at which the votes were last pinned. However the ring
     changed after it, the pass ends with a quorate ring exactly when that has more than half
     of the votes pinned, and no joins of this pass reloaded a conf of twice its size.
     */
    method Pass(a: Answers) returns (added: bool, ghost pin: nat)
      requires Valid() && forall ip :: ip in a.pending ==> IsAddress(ip)
      modifies this, cluster
      ensures Valid() && |turns| == |old(turns)| + 1 && turns[..|old(turns)|] == old(turns)
      ensures turns[|turns| - 1].answers == a && added == Attempts(Ticks(turns), |turns| - 1)
      ensures Survive(old(cluster.Now()).nodes, cluster.Now().nodes, cluster.me, a.running)
      ensures !added ==> cluster.Now().nodes == Run(cluster.start, cluster.trace[..turns[|turns| - 1].middle]).nodes
      ensures added ==> forall ip :: ip in a.pending && ip in a.authorized ==> Lists(cluster.Now().nodes, ip)
      ensures turns[|turns| - 1].begin <= pin <= |cluster.trace| && Pinned(Run(cluster.start, cluster.trace[..pin]))
      ensures
        var joined := added && SomeWanted(a.pending, a.authorized);
        Quorate(cluster.Now()) <==>
          (&& Run(cluster.start, cluster.trace[..pin]).expected < 2 * |cluster.ring|
           && !(joined && a.raises && |cluster.Now().nodes| >= 2 * |cluster.ring|))
    {
      hide WellFormed, RingsFirst, Render, Inv, LegalRun, Run, IsAddress, Survive, StaleIn, SinceAfter, Adds, Lists, MadeOf, Saw, Ticks, Attempts, Since, SomeWanted, VotesFrom, Pinned, RingLeft, NodesLeft;
      ghost var before := cluster.trace;
      ghost var middle;
      added, middle, pin := Work(a);
      QuorumFrom(Run(cluster.start, cluster.trace[..pin]), cluster.Now(), added && SomeWanted(a.pending, a.authorized), a.raises);
      ghost var turn := Turn(a, TickOf(a, middle), |before|, middle, |cluster.trace|);
      assert cluster.trace[..|before|] == before && cluster.trace[..|cluster.trace|] == cluster.trace;
      OneMoreTurn(cluster.me, cluster.start, before, turns, cluster.trace, turn);
      SinceOneMore(turns, turn);
      turns := turns + [turn];
    }

    /** What the gate sees at a moment of the history. */
    ghost function TickOf(a: Answers, middle: nat): Tick
      requires middle <= |cluster.trace|
      reads this, cluster
    {
      Tick(a.now, StaleIn(Run(cluster.start, cluster.trace[..middle]).nodes, cluster.me, a.live), a.joiner)
    }

    /** A pass opens with a pin of the ring it finds; before the cleanup the ring can have changed. */
    method PinRing(a: Answers)
      requires cluster.Valid()
      modifies cluster`ring, cluster`expected, cluster`trace
      ensures cluster.Valid() && Saw(old(cluster.trace), cluster.trace, a.running)
      ensures cluster.trace == old(cluster.trace) + [RingIs(a.ring), Pin, RingIs(a.cleaned)]
      ensures cluster.Now() == old(cluster.Now()).(ring := a.cleaned, expected := cluster.expected)
      ensures var pinned := Run(cluster.start, cluster.trace[..|old(cluster.trace)| + 2]);
        Pinned(pinned) && pinned.expected == cluster.expected
    {
      hide WellFormed, RingsFirst, Render, Inv, LegalRun, Run, Saw;
      ghost var start := cluster.trace;
      SawNothing(start, a.running);
      SawStep(start, start, RingIs(a.ring), a.running);
      cluster.RingChanges(a.ring);
      SawStep(start, cluster.trace, Pin, a.running);
      cluster.PinExpectedVotes();
      ghost var t0 := cluster.trace;
      SawStep(start, t0, RingIs(a.cleaned), a.running);
      cluster.RingChanges(a.cleaned);
      assert cluster.trace[..|start| + 2] == t0;
    }

    /** The first half of the body: pin, clean up, recover, while the ring changes in between. */
    method TidyUp(a: Answers) returns (ghost pin: nat)
      requires cluster.Valid()
      modifies cluster
      ensures cluster.Valid() && Saw(old(cluster.trace), cluster.trace, a.running)
      ensures Survive(old(cluster.Now()).nodes, cluster.Now().nodes, cluster.me, a.running)
      ensures |old(cluster.trace)| <= pin <= |cluster.trace| && Pinned(Run(cluster.start, cluster.trace[..pin]))
      ensures cluster.expected == Run(cluster.start, cluster.trace[..pin]).expected
      ensures OpensWithPin(|old(cluster.trace)|, cluster.trace, a)
      ensures RingLeft(old(cluster.Now()).nodes, cluster.me, a, cluster.ring)
      ensures NodesLeft(old(cluster.Now()).nodes, cluster.me, a, cluster.runtime.Values, cluster.Now().nodes)
    {
      hide WellFormed, RingsFirst, Render, Inv, LegalRun, Run, Minus, Kept, IsAddress, Survive, Saw, RingLeft, NodesLeft, IdAmong, RemovesPinned, Loaded, Addresses, Without, IdOf, FreeId, MaxId, Merged;
      ghost var nodes, start := cluster.Now().nodes, cluster.trace;
      PinRing(a);
      ghost var t1 := cluster.trace;
      cluster.CleanupOfflineNodes(a.live, a.running, a.killable, a.offline, a.removable, a.raises);
      ghost var t2 := cluster.trace;
      ghost var departed := Departed(Addresses(nodes), cluster.me, a.live, a.running);
      RingLeftIs(nodes, cluster.me, a, cluster.ring);
      pin := if departed == {} then |t1| - 1 else |t2|;
      SawMore(start, t1, t2, a.running);
      ghost var cleaned := cluster.Now().nodes;
      assert t2[..|t2|] == t2;
      SawPrefix(t1, t2, a.running);
      assert t2[..|t1| - 1] == t1[..|t1| - 1];
      cluster.RecoverOfflineAsgNodes(a.live, a.running, a.removable);
      ghost var t3 := cluster.trace;
      SawPrefix(t2, t3, a.running);
      assert t3[..pin] == t2[..pin];
      SawMore(start, t2, t3, a.running);
      NodesLeftIs(nodes, cluster.me, a, cluster.runtime.Values, cleaned, cluster.Now().nodes);
      SurviveLeft(nodes, cluster.me, a, cluster.runtime.Values, cluster.Now().nodes);
    }

    /** The body of the loop. */
    method Work(a: Answers) returns (added: bool, ghost middle: nat, ghost pin: nat)
      requires cluster.Valid() && forall ip :: ip in a.pending ==> IsAddress(ip)
      modifies this`staleSince, cluster
      ensures cluster.Valid() && Saw(old(cluster.trace), cluster.trace, a.running)
      ensures old(cluster.trace) <= cluster.trace && |old(cluster.trace)| <= middle <= |cluster.trace|
      ensures staleSince == SinceAfter(old(staleSince), TickOf(a, middle)) && added == Adds(old(staleSince), TickOf(a, middle))
      ensures Survive(old(cluster.Now()).nodes, cluster.Now().nodes, cluster.me, a.running)
      ensures !added ==> cluster.Now().nodes == Run(cluster.start, cluster.trace[..middle]).nodes
      ensures added ==> forall ip :: ip in a.pending && ip in a.authorized ==> Lists(cluster.Now().nodes, ip)
      ensures |old(cluster.trace)| <= pin <= |cluster.trace| && Pinned(Run(cluster.start, cluster.trace[..pin]))
      ensures VotesFrom(Run(cluster.start, cluster.trace[..pin]), cluster.Now(), added && SomeWanted(a.pending, a.authorized), a.raises)
      ensures middle > |old(cluster.trace)| && OpensWithPin(|old(cluster.trace)|, cluster.trace, a)
      ensures RingLeft(old(cluster.Now()).nodes, cluster.me, a, Run(cluster.start, cluster.trace[..middle - 1]).ring)
      ensures var left := Run(cluster.start, cluster.trace[..middle]);
        NodesLeft(old(cluster.Now()).nodes, cluster.me, a, left.runtime.Values, left.nodes)
    {
      hide WellFormed, RingsFirst, Render, Inv, LegalRun, Run, Minus, Kept, IsAddress, Survive, StaleIn, SinceAfter, Adds, Lists, Saw, SomeWanted, Pinned, RingLeft, NodesLeft;
      ghost var nodes, start := cluster.Now().nodes, cluster.trace;
      pin := TidyUp(a);
      ghost var t2 := cluster.trace;
      SawStep(start, t2, RingIs(a.later), a.running);
      cluster.RingChanges(a.later);
      ghost var t3 := cluster.trace;
      assert t3[..pin] == t2[..pin];
      middle := |t3|;
      SawPrefix(start, t2, a.running);
      assert t3[..middle - 1] == t2;
      ghost var mid := cluster.Now().nodes;
      SawPrefix(start, t3, a.running);
      assert t3[..middle] == t3;
      var stale := SeesStale(a.live);
      var since, add := Gate(staleSince, Tick(a.now, stale, a.joiner));
      staleSince := since;
      added := add;
      if add {
        ghost var again := cluster.AddNewNodes(a.pending, a.authorized, a.running, a.raises, a.rings);
        SawMore(start, t3, cluster.trace, a.running);
        SawPrefix(t3, cluster.trace, a.running);
        SawPrefix(start, cluster.trace, a.running);
        assert cluster.trace[..middle] == t3 && cluster.trace[..pin] == t3[..pin] && cluster.trace[..middle - 1] == t2;
        SurviveKept(nodes, mid, cluster.Now().nodes, cluster.me, a.running);
        if Pinned(Run(cluster.start, cluster.trace[..again])) { pin := again; }
      }
    }
  }

  lemma SinceOneMore(turns: seq<Turn>, turn: Turn)
    ensures var more := turns + [turn];
      && Since(Ticks(more), |more|) == SinceAfter(Since(Ticks(turns), |turns|), turn.tick)
      && Attempts(Ticks(more), |turns|) == Adds(Since(Ticks(turns), |turns|), turn.tick)
  {
    hide SinceAfter, Adds;
    var more := turns + [turn];
    SincePrefix(Ticks(turns), Ticks(more), |turns|);
  }

  lemma {:induction false} SincePrefix(a: seq<Tick>, b: seq<Tick>, i: nat)
    requires i <= |a| && a <= b
    ensures Since(a, i) == Since(b, i)
  {
    if i > 0 { SincePrefix(a, b, i - 1); }
  }

  /** The writer's entry and the entries of running nodes are all still there. */
  ghost predicate Survive(before: seq<Node>, after: seq<Node>, me: string, running: set<string>) {
    forall n :: n in before && (n.ip == me || n.ip in running) ==> n in after
  }

  lemma SurviveLeft(before: seq<Node>, me: string, a: Answers, known: set<string>, left: seq<Node>)
    requires NodesLeft(before, me, a, known, left)
    ensures Survive(before, left, me, a.running)
  {
  }

  lemma SurviveKept(before: seq<Node>, mid: seq<Node>, after: seq<Node>, me: string, running: set<string>)
    requires Survive(before, mid, me, running)
    requires after == mid || Kept(mid, me, running) <= after
    ensures Survive(before, after, me, running)
  {
    hide Kept;
    KeptIsPart(mid, me, running);
  }

  lemma InvDistinct(me: string, s: State)
    requires Inv(me, s)
    ensures Distinct(s.nodes)
  {
  }

  lemma RenderNotEmpty(c: Conf)
    ensures |Render(c)| > 0
  {
  }

  /** The members of a list that are in a set. */
  function Among(ips: seq<string>, chosen: set<string>): set<string> {
    set ip | ip in ips && ip in chosen
  }

  lemma AmongNone(ips: seq<string>, chosen: set<string>)
    ensures Among(ips[..0], chosen) == {}
  {
  }

  lemma AmongOneMore(ips: seq<string>, i: nat, chosen: set<string>)
    requires i < |ips|
    ensures Among(ips[..i + 1], chosen) == Among(ips[..i], chosen) + if ips[i] in chosen then {ips[i]} else {}
    ensures Among(ips[..i], chosen) + {} == Among(ips[..i], chosen)
  {
    assert ips[..i + 1] == ips[..i] + [ips[i]];
  }

  lemma MinusAtStart(nodes: seq<Node>, ips: seq<string>, chosen: set<string>)
    ensures Minus(nodes, Among(ips[..0], chosen)) == nodes
  {
    assert Among(ips[..0], chosen) == {};
    MinusNothing(nodes);
  }

  lemma ListedNode(nodes: seq<Node>, n: Node)
    requires n in nodes
    ensures n.ip in Addresses(nodes)
  {
    AddressListed(nodes, n.ip);
  }

  /** Configured addresses other than the writer's, not among the live ones, with no running instance. */
  function Departed(ips: seq<string>, me: string, live: set<string>, running: set<string>): set<string> {
    set ip | ip in ips && ip != me && ip !in live && ip !in running
  }

  lemma DepartedAt(ips: seq<string>, i: nat, me: string, running: set<string>)
    requires i < |ips|
    ensures ips[i] in Departed(ips, me, {}, running) <==> ips[i] != me && ips[i] !in running
  {
  }

  /** Without the departed addresses, what is left is the writer and the running nodes. */
  lemma PrunedIsKept(nodes: seq<Node>, me: string, running: set<string>)
    ensures var ips := Addresses(nodes);
      Minus(nodes, Among(ips, Departed(ips, me, {}, running))) == Kept(nodes, me, running)
  {
    hide Minus, Kept;
    var ips := Addresses(nodes);
    forall n | n in nodes ensures n.ip in ips {
      ListedNode(nodes, n);
    }
    KeptIsMinus(nodes, me, running, Among(ips, Departed(ips, me, {}, running)));
  }

  lemma EmptyList(gone: seq<string>, departed: set<string>)
    requires gone == [] && forall ip :: ip in gone <==> ip in departed
    ensures departed == {}
  {
  }

  lemma {:induction false} KeptIsPart(nodes: seq<Node>, me: string, running: set<string>)
    ensures forall n :: n in Kept(nodes, me, running) <==> n in nodes && (n.ip == me || n.ip in running)
  {
    if nodes != [] {
      assert nodes == [nodes[0]] + nodes[1..];
      KeptIsPart(nodes[1..], me, running);
    }
  }

  lemma SyncRaises(before: State, after: State)
    requires exists s: State :: NextId(s) == NextId(before) && after == Apply(s, Sync)
    ensures NextId(after) >= NextId(before)
  {
  }

  lemma AddressListed(nodes: seq<Node>, ip: string)
    ensures ip in Addresses(nodes) <==> Lists(nodes, ip)
  {
    if Lists(nodes, ip) {
      var n :| n in nodes && n.ip == ip;
      var i :| 0 <= i < |nodes| && nodes[i] == n;
      assert Addresses(nodes)[i] == ip;
    }
    if ip in Addresses(nodes) {
      var i :| 0 <= i < |nodes| && Addresses(nodes)[i] == ip;
      assert nodes[i] in nodes;
    }
  }

  lemma ListedIsLoaded(me: string, s: State, ip: string, before: map<nat, string>)
    requires Inv(me, s) && Lists(s.nodes, ip) && forall n :: n in s.nodes ==> n.id in s.runtime
    requires forall id :: id in before ==> id in s.runtime && s.runtime[id] == before[id]
    ensures ip in s.runtime.Values && forall v :: v in before.Values ==> v in s.runtime.Values
  {
    var n :| n in s.nodes && n.ip == ip;
    assert s.runtime[n.id] == ip;
    forall v | v in before.Values ensures v in s.runtime.Values {
      var id :| id in before && before[id] == v;
      assert s.runtime[id] == v;
    }
  }

  /** One round of the id loop, as arithmetic on ids. */
  lemma SkipUsed(nodes: seq<Node>, id: nat)
    ensures Decimal(id) in IdsAsText(nodes) ==> FreeId(nodes, id) == FreeId(nodes, id + 1) && id <= MaxId(nodes)
    ensures Decimal(id) !in IdsAsText(nodes) ==> FreeId(nodes, id) == id
  {
    hide Decimal;
    IdInUse(nodes, id);
  }

  lemma MaxIdIs(nodes: seq<Node>, m: nat)
    requires m >= 1 && (forall n :: n in nodes ==> n.id <= m) && (m == 1 || UsesId(nodes, m))
    ensures MaxId(nodes) == m
  {
  }

  lemma IdInUse(nodes: seq<Node>, id: nat)
    ensures Decimal(id) in IdsAsText(nodes) <==> UsesId(nodes, id)
  {
    hide Decimal;
    if Decimal(id) in IdsAsText(nodes) {
      var i :| 0 <= i < |nodes| && IdsAsText(nodes)[i] == Decimal(id);
      DecimalInjective(nodes[i].id, id);
      assert nodes[i] in nodes;
    }
    if UsesId(nodes, id) {
      var n :| n in nodes && n.id == id;
      var i :| 0 <= i < |nodes| && nodes[i] == n;
      assert IdsAsText(nodes)[i] == Decimal(id);
    }
  }
}
