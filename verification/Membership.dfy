/**
 The watcher's cluster as a state machine: the node list of corosync.conf, corosync's
 grow-only runtime node list, the id counter file, the ring and the expected votes.
 Everything the watcher does to them is a sequence of events; the theorems are about
 all legal sequences.
 */
module Membership {
  import opened Text
  import opened ConfText

  datatype State = State(
    nodes: seq<Node>,          // corosync.conf, in order
    runtime: map<nat, string>, // corosync's runtime node list: id to address
    counter: Option<nat>,      // the .next_nodeid file, when it exists
    ring: set<nat>,            // ids voting in the current ring
    expected: nat)             // expected_votes

  datatype Event =
    | Sync                                            // raise the counter above the ids in conf
    | Assign(ip: string)                              // add an address to conf under the next free id
    | Reload(raises: bool)                            // corosync reads conf; may raise expected votes
    | Remove(ip: string, seen: set<string>)           // delete an address from conf; seen: running addresses
    | Kill(id: nat, ip: string, seen: set<string>)    // throw an id out of the ring
    | Pin                                             // expected votes := votes present, if any
    | SetVotes                                        // expected votes := votes present, at least 1
    | RingIs(ring: set<nat>)                          // the ring changes by itself

  // ---- ids ----------------------------------------------------------------

  /** get_next_nodeid */
  function NextId(s: State): nat { s.counter.GetOr(2) }

  predicate UsesId(nodes: seq<Node>, id: nat) { exists n :: n in nodes && n.id == id }

  predicate Lists(nodes: seq<Node>, ip: string) { exists n :: n in nodes && n.ip == ip }

  /** The largest id in conf, at least 1. */
  function MaxId(nodes: seq<Node>): (m: nat)
    ensures m >= 1 && forall n :: n in nodes ==> n.id <= m
    ensures m == 1 || UsesId(nodes, m)
  {
    if nodes == [] then 1
    else
      var m := MaxId(nodes[1..]);
      assert nodes == [nodes[0]] + nodes[1..];
      if nodes[0].id > m then nodes[0].id else m
  }

  /** The id the skipping loop stops at: the least one from `from` on that conf does not use. */
  function FreeId(nodes: seq<Node>, from: nat): (id: nat)
    ensures from <= id && !UsesId(nodes, id)
    decreases MaxId(nodes) - from
  {
    if UsesId(nodes, from) then FreeId(nodes, from + 1) else from
  }

  /** It is the least such id. */
  lemma {:induction false} FreeIdIsLeast(nodes: seq<Node>, from: nat, i: nat)
    requires from <= i < FreeId(nodes, from)
    ensures UsesId(nodes, i)
    decreases i - from
  {
    if from < i { FreeIdIsLeast(nodes, from + 1, i); }
  }

  /** A reload adds the ids it does not know and leaves the others as they are. */
  function Merged(runtime: map<nat, string>, nodes: seq<Node>): (r: map<nat, string>)
    ensures forall id :: id in runtime ==> id in r && r[id] == runtime[id]
    ensures forall id :: id in r && id !in runtime ==> Node(r[id], id) in nodes
    ensures forall n :: n in nodes ==> n.id in r
    decreases |nodes|
  {
    if nodes == [] then runtime
    else
      var n := nodes[0];
      var r := Merged(if n.id in runtime then runtime else runtime[n.id := n.ip], nodes[1..]);
      assert nodes == [n] + nodes[1..];
      r
  }

  // ---- events -------------------------------------------------------------

  function Apply(s: State, e: Event): State {
    match e
    case Sync => if NextId(s) <= MaxId(s.nodes) then s.(counter := Some(MaxId(s.nodes) + 1)) else s
    case Assign(ip) =>
      if Lists(s.nodes, ip) then s else
      var id := FreeId(s.nodes, NextId(s));
      s.(nodes := s.nodes + [Node(ip, id)], counter := Some(id + 1))
    case Reload(raises) =>
      s.(runtime := Merged(s.runtime, s.nodes),
         expected := if raises && s.expected < |s.nodes| then |s.nodes| else s.expected)
    case Remove(ip, _) => s.(nodes := Without(s.nodes, ip))
    case Kill(id, _, _) => s.(ring := s.ring - {id})
    case Pin => if |s.ring| >= 1 then s.(expected := |s.ring|) else s
    case SetVotes => s.(expected := if |s.ring| >= 1 then |s.ring| else 1)
    case RingIs(ring) => s.(ring := ring)
  }

  /** Only departed addresses are removed or killed, never the writer's own; only an id of that address is killed. */
  predicate Legal(me: string, s: State, e: Event) {
    match e
    case Remove(ip, seen) => ip != me && ip !in seen
    case Kill(id, ip, seen) => ip != me && ip !in seen && IdOf(s.nodes, ip) == Some(id)
    case _ => true
  }

  function Run(s: State, es: seq<Event>): State {
    if es == [] then s else Apply(Run(s, es[..|es| - 1]), es[|es| - 1])
  }

  ghost predicate LegalRun(me: string, s: State, es: seq<Event>) {
    forall i :: 0 <= i < |es| ==> Legal(me, Run(s, es[..i]), es[i])
  }

  // ---- the invariant ------------------------------------------------------

  ghost predicate Distinct(nodes: seq<Node>) {
    forall i, j :: 0 <= i < j < |nodes| ==> nodes[i].ip != nodes[j].ip && nodes[i].id != nodes[j].id
  }

  /** An id stands for an address, in conf or in the runtime list. */
  ghost predicate Bound(s: State, id: nat, ip: string) {
    Node(ip, id) in s.nodes || (id in s.runtime && s.runtime[id] == ip)
  }

  /** Addresses and ids are distinct in conf, and conf and the runtime list agree. */
  ghost predicate Sound(s: State) {
    Distinct(s.nodes) && forall n :: n in s.nodes && n.id in s.runtime ==> s.runtime[n.id] == n.ip
  }

  ghost predicate Inv(me: string, s: State) {
    && Sound(s) && Lists(s.nodes, me)
    && (forall n :: n in s.nodes ==> n.id < NextId(s))
    && (forall id :: id in s.runtime ==> id < NextId(s))
  }

  /** From s to t the counter did not fall, the runtime list only grew, and no id below the old counter gained an address. */
  ghost predicate Evolves(s: State, t: State) {
    && NextId(s) <= NextId(t)
    && (forall id :: id in s.runtime ==> id in t.runtime && t.runtime[id] == s.runtime[id])
    && (forall id: nat, ip :: Bound(t, id, ip) && id < NextId(s) ==> Bound(s, id, ip))
  }

  lemma {:induction false} WithoutIsFilter(nodes: seq<Node>, ip: string)
    ensures forall n :: n in Without(nodes, ip) <==> n in nodes && n.ip != ip
    ensures Distinct(nodes) ==> Distinct(Without(nodes, ip))
  {
    if nodes != [] {
      assert nodes == [nodes[0]] + nodes[1..];
      WithoutIsFilter(nodes[1..], ip);
      if Distinct(nodes) {
        var w := Without(nodes[1..], ip);
        assert Distinct(nodes[1..]);
        forall j | 0 <= j < |w| ensures w[j].ip != nodes[0].ip && w[j].id != nodes[0].id {
          assert w[j] in nodes[1..];
        }
      }
    }
  }

  lemma {:induction false} WithoutShorter(nodes: seq<Node>, ip: string)
    ensures |Without(nodes, ip)| < |nodes| <==> Lists(nodes, ip)
    ensures !Lists(nodes, ip) ==> Without(nodes, ip) == nodes
    ensures |Without(nodes, ip)| <= |nodes|
  {
    if nodes != [] {
      assert nodes == [nodes[0]] + nodes[1..];
      assert nodes[0] in nodes;
      WithoutShorter(nodes[1..], ip);
      assert Lists(nodes, ip) <==> nodes[0].ip == ip || Lists(nodes[1..], ip);
    }
  }

  lemma FreeIdIsNext(me: string, s: State)
    requires Inv(me, s)
    ensures FreeId(s.nodes, NextId(s)) == NextId(s)
  {
    if FreeId(s.nodes, NextId(s)) > NextId(s) { FreeIdIsLeast(s.nodes, NextId(s), NextId(s)); }
  }

  lemma AssignKeeps(me: string, s: State, ip: string)
    requires Inv(me, s)
    ensures Inv(me, Apply(s, Assign(ip))) && Evolves(s, Apply(s, Assign(ip)))
  {
    hide FreeId;
    FreeIdIsNext(me, s);
  }

  lemma RemoveKeeps(me: string, s: State, ip: string, seen: set<string>)
    requires Inv(me, s) && ip != me
    ensures Inv(me, Apply(s, Remove(ip, seen))) && Evolves(s, Apply(s, Remove(ip, seen)))
  {
    hide Without;
    WithoutIsFilter(s.nodes, ip);
  }

  lemma ReloadKeeps(me: string, s: State, raises: bool)
    requires Inv(me, s)
    ensures Inv(me, Apply(s, Reload(raises))) && Evolves(s, Apply(s, Reload(raises)))
  {
    hide Merged;
  }

  /** Every legal event keeps the invariant and the ids already given out. */
  lemma EventKeeps(me: string, s: State, e: Event)
    requires Inv(me, s) && Legal(me, s, e)
    ensures Inv(me, Apply(s, e)) && Evolves(s, Apply(s, e))
  {
    match e
    case Assign(ip) => AssignKeeps(me, s, ip);
    case Remove(ip, seen) => RemoveKeeps(me, s, ip, seen);
    case Reload(raises) => ReloadKeeps(me, s, raises);
    case _ =>
  }

  lemma EvolvesTransitive(s: State, t: State, u: State)
    requires Evolves(s, t) && Evolves(t, u)
    ensures Evolves(s, u)
  {
  }

  lemma RunStep(s: State, es: seq<Event>, n: nat)
    requires n < |es|
    ensures Run(s, es[..n + 1]) == Apply(Run(s, es[..n]), es[n])
  {
    assert es[..n + 1][..n] == es[..n];
  }

  /** One more legal event makes a longer legal run. */
  lemma TraceExtends(me: string, s: State, es: seq<Event>, e: Event)
    requires LegalRun(me, s, es) && Legal(me, Run(s, es), e)
    ensures LegalRun(me, s, es + [e]) && Run(s, es + [e]) == Apply(Run(s, es), e)
  {
    hide Legal, Apply;
    assert (es + [e])[..|es|] == es;
    forall i | 0 <= i < |es + [e]| ensures Legal(me, Run(s, (es + [e])[..i]), (es + [e])[i]) {
      if i < |es| { assert (es + [e])[..i] == es[..i]; }
    }
  }

  /** Along a legal run the invariant always holds and ids only move forward. */
  lemma {:induction false} RunKeeps(me: string, s: State, es: seq<Event>, i: nat, j: nat)
    requires Inv(me, s) && LegalRun(me, s, es) && i <= j <= |es|
    ensures Inv(me, Run(s, es[..i])) && Inv(me, Run(s, es[..j]))
    ensures Evolves(Run(s, es[..i]), Run(s, es[..j]))
    decreases j
  {
    hide Inv, Evolves, Apply, Legal;
    if i == j {
      if j == 0 {
        assert Run(s, es[..0]) == s;
      } else {
        RunKeeps(me, s, es, j - 1, j - 1);
        RunStep(s, es, j - 1);
        EventKeeps(me, Run(s, es[..j - 1]), es[j - 1]);
      }
      EvolvesReflexive(Run(s, es[..i]));
    } else {
      RunKeeps(me, s, es, i, j - 1);
      RunStep(s, es, j - 1);
      EventKeeps(me, Run(s, es[..j - 1]), es[j - 1]);
      EvolvesTransitive(Run(s, es[..i]), Run(s, es[..j - 1]), Run(s, es[..j]));
    }
  }

  lemma EvolvesReflexive(s: State)
    ensures Evolves(s, s)
  {
  }

  /**
   Node ids are never reused: at any two moments of a run, whether in conf or in the
   runtime list, an id stands for the same address.
   */
  lemma IdsNeverReused(me: string, s: State, es: seq<Event>, i: nat, j: nat, id: nat, ip: string, ip': string)
    requires Inv(me, s) && LegalRun(me, s, es) && i <= j <= |es|
    requires Bound(Run(s, es[..i]), id, ip) && Bound(Run(s, es[..j]), id, ip')
    ensures ip == ip'
  {
    RunKeeps(me, s, es, i, j);
    var t := Run(s, es[..i]);
    assert Bound(t, id, ip');
    OneAddress(t, id, ip, ip');
  }

  lemma OneAddress(s: State, id: nat, ip: string, ip': string)
    requires Sound(s) && Bound(s, id, ip) && Bound(s, id, ip')
    ensures ip == ip'
  {
    if Node(ip, id) in s.nodes && Node(ip', id) in s.nodes {
      var i :| 0 <= i < |s.nodes| && s.nodes[i] == Node(ip, id);
      var j :| 0 <= j < |s.nodes| && s.nodes[j] == Node(ip', id);
    }
  }

  /** The counter only rises, and stays above every id ever put in conf or in the runtime list. */
  lemma CounterAboveAll(me: string, s: State, es: seq<Event>, i: nat, j: nat, id: nat, ip: string)
    requires Inv(me, s) && LegalRun(me, s, es) && i <= j <= |es|
    requires Bound(Run(s, es[..i]), id, ip)
    ensures id < NextId(Run(s, es[..i])) <= NextId(Run(s, es[..j]))
  {
    RunKeeps(me, s, es, i, j);
  }

  lemma OnlyRemovalRemoves(s: State, e: Event, n: Node)
    requires n in s.nodes && n !in Apply(s, e).nodes
    ensures e.Remove? && e.ip == n.ip
  {
    hide FreeId, MaxId, Merged;
    if e.Remove? { WithoutIsFilter(s.nodes, e.ip); }
  }

  /**
   Removal safety: an entry that is in conf at one moment and gone at a later one was
   removed by an event in between, whose pass had just seen no running instance at its
   address; it is never the writer's.
   */
  lemma {:induction false} RemovedWasGone(me: string, s: State, es: seq<Event>, i: nat, j: nat, n: Node)
    requires LegalRun(me, s, es) && i <= j <= |es|
    requires n in Run(s, es[..i]).nodes && n !in Run(s, es[..j]).nodes
    ensures n.ip != me
    ensures exists k :: i <= k < j && es[k].Remove? && es[k].ip == n.ip && n.ip !in es[k].seen
    decreases j
  {
    hide Apply, Legal;
    RunStep(s, es, j - 1);
    if n in Run(s, es[..j - 1]).nodes {
      OnlyRemovalRemoves(Run(s, es[..j - 1]), es[j - 1], n);
      LegalRemoval(me, Run(s, es[..j - 1]), es[j - 1]);
    } else {
      RemovedWasGone(me, s, es, i, j - 1, n);
    }
  }

  lemma LegalRemoval(me: string, s: State, e: Event)
    requires Legal(me, s, e) && e.Remove?
    ensures e.ip != me && e.ip !in e.seen
  {
  }

  /** The writer's own entry is never lost: same address, same id, at every moment. */
  lemma WriterStays(me: string, s: State, es: seq<Event>, i: nat, n: Node)
    requires LegalRun(me, s, es) && i <= |es| && n in s.nodes && n.ip == me
    ensures n in Run(s, es[..i]).nodes
  {
    assert Run(s, es[..0]) == s;
    if n !in Run(s, es[..i]).nodes { RemovedWasGone(me, s, es, 0, i, n); }
  }

  lemma {:induction false} IdOfIsMember(nodes: seq<Node>, ip: string)
    ensures IdOf(nodes, ip).Some? ==> Node(ip, IdOf(nodes, ip).value) in nodes
    ensures IdOf(nodes, ip).None? ==> !Lists(nodes, ip)
    ensures Distinct(nodes) ==> forall n :: n in nodes && n.ip == ip ==> IdOf(nodes, ip) == Some(n.id)
  {
    if nodes != [] {
      assert nodes == [nodes[0]] + nodes[1..];
      IdOfIsMember(nodes[1..], ip);
      if Distinct(nodes) { assert Distinct(nodes[1..]); }
    }
  }

  // ---- where a run may start ----------------------------------------------

  /**
   A freshly set up cluster: ids 1..n, an empty runtime list, and a counter file above n.
   A single-node set-up may find no file, or keep one that an earlier cluster left.
   */
  lemma FreshStart(me: string, nodes: seq<Node>, counter: Option<nat>, ring: set<nat>, expected: nat)
    requires Distinct(nodes) && Lists(nodes, me)
    requires forall n :: n in nodes ==> n.id <= |nodes|
    ensures Inv(me, State(nodes, map[], counter, ring, expected)) <== counter.GetOr(2) > |nodes|
  {
  }

  // ---- quorum -------------------------------------------------------------

  /** The ring holds more than half of the expected votes. */
  predicate Quorate(s: State) { |s.ring| >= s.expected / 2 + 1 }

  /**
   Whatever left the ring and however many departed nodes conf still lists, setting the
   expected votes to the votes present makes the ring quorate again.
   */
  lemma PinRestoresQuorum(s: State)
    requires |s.ring| >= 1
    ensures Quorate(Apply(s, Pin)) && Quorate(Apply(s, SetVotes))
    ensures Apply(s, Pin).expected == |s.ring|
  {
  }

  /** Without a pin a reload alone loses quorum exactly when conf outgrows twice the ring. */
  lemma ReloadLosesQuorum(s: State)
    requires Quorate(s)
    ensures !Quorate(Apply(s, Reload(true))) <==> |s.nodes| >= 2 * |s.ring|
  {
  }
}
