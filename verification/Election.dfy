/**
 Who is the writer: the election every instance runs when it boots, and the promotion
 script that demotes one node and promotes another. The script's steps are separate
 events, so boots, restarts and terminations can fall between any two of them.
 Every lookup, request and write whose failure the scripts swallow may be lost.
 */
module Election {
  import opened Text

  datatype Mode = ReadWrite | ReadOnly
  datatype Tag = WriterTag | ReaderTag

  /** One instance: MODE in its env file, the mode its service was started with, its Name tag. */
  datatype Machine = Machine(running: bool, env: Mode, service: Mode, tag: Tag)

  /**
   How far a promotion has come. The script may stop waiting for its promote request, make
   its final writes and end; the request is then served, or lost, after its end.
   */
  datatype Phase =
    | Idle
    | Demoting(prev: string, target: string)     // demotion sent, waiting for "readonly"
    | Retagging(prev: string, target: string)    // the wait is over
    | Ready(target: string, ended: bool)        // the promote request is on its way
    | Recording(target: string, arrived: bool, ended: bool)  // it arrived or was lost; the handler tried to write SSM
    | Switched(target: string)                  // the handler switched the env file

  datatype Fleet = Fleet(
    machines: map<string, Machine>,
    authKey: bool,               // corosync-authkey exists in SSM
    recorded: Option<string>,    // writer-instance-id in SSM
    phase: Phase)

  /** Which lookups of an election were answered: the auth key, the recorded writer, its state, the tag search. */
  datatype Answers = Answers(key: bool, writer: bool, state: bool, tags: bool)

  const ALL := Answers(true, true, true, true)

  /** Lookups, writes and requests whose failure the scripts swallow carry whether they went through. */
  datatype Step =
    | Boot(id: string, heard: Answers, saved: bool, keyed: bool)    // a winner's writes of its id and of the auth key
    | Terminate(id: string)
    | Restart(id: string)                                       // the service restarts with the env file's mode
    | Start(target: string, found: Option<string>, answered: bool, delivered: bool)  // found: a running instance tagged as writer
    | SeeReadonly
    | GiveUp                                                    // thirty polls without "readonly"
    | Retag(written: bool)
    | Record(arrives: bool, saved: bool)                        // the promote request, and its handler's write to SSM
    | Switch
    | Finish(tagged: bool, saved: bool)

  // ---- the election -------------------------------------------------------

  predicate Runs(f: Fleet, id: string) { id in f.machines && f.machines[id].running }

  /** A running instance carries the writer tag. */
  predicate TaggedWriter(f: Fleet, id: string) { Runs(f, id) && f.machines[id].tag == WriterTag }

  predicate SomeTaggedWriter(f: Fleet) { exists id :: id in f.machines && TaggedWriter(f, id) }

  /** BECOME_WRITER: a lookup that fails reads as no key, no writer, "terminated" or no tagged instance. */
  predicate Elects(f: Fleet, heard: Answers) {
    || !(f.authKey && heard.key)
    || (!(f.recorded.Some? && heard.writer && Runs(f, f.recorded.value) && heard.state) && !(SomeTaggedWriter(f) && heard.tags))
  }

  /** The election when every lookup is answered. */
  predicate BecomesWriter(f: Fleet) { Elects(f, ALL) }

  /** The boot script's nested tests. */
  method Elect(f: Fleet, heard: Answers) returns (become: bool)
    ensures become == Elects(f, heard)
    ensures BecomesWriter(f) ==> become
  {
    become := false;
    if !(f.authKey && heard.key) {
      become := true;
    } else {
      var tagged := SomeTaggedWriter(f) && heard.tags;
      if f.recorded.None? || !heard.writer {
        if !tagged { become := true; }
      } else {
        var oldRuns := Runs(f, f.recorded.value) && heard.state;
        if !oldRuns {
          if !tagged { become := true; }
        }
      }
    }
  }

  // ---- the steps ----------------------------------------------------------

  const WRITER := Machine(true, ReadWrite, ReadWrite, WriterTag)
  const READER := Machine(true, ReadOnly, ReadOnly, ReaderTag)

  function WithEnv(f: Fleet, id: string, m: Mode): Fleet {
    if Runs(f, id) then f.(machines := f.machines[id := f.machines[id].(env := m)]) else f
  }

  function WithTag(f: Fleet, id: string, t: Tag): Fleet {
    if id in f.machines then f.(machines := f.machines[id := f.machines[id].(tag := t)]) else f
  }

  /** The script has sent its promote request. */
  predicate Waits(p: Phase) { p.Switched? || ((p.Ready? || p.Recording?) && !p.ended) }

  /** What is left of a promotion when its script ends: the request, if it is still to be served. */
  function Ended(p: Phase): Phase {
    if p.Ready? || p.Recording? then p.(ended := true) else Idle
  }

  function Apply(f: Fleet, s: Step): Fleet {
    match s
    case Boot(id, heard, saved, keyed) =>
      if Elects(f, heard) then
        f.(machines := f.machines[id := WRITER], authKey := f.authKey || keyed, recorded := if saved then Some(id) else f.recorded)
      else f.(machines := f.machines[id := READER])
    case Terminate(id) =>
      if id in f.machines then f.(machines := f.machines[id := f.machines[id].(running := false)]) else f
    case Restart(id) =>
      if Runs(f, id) then f.(machines := f.machines[id := f.machines[id].(service := f.machines[id].env)]) else f
    case Start(target, found, _, delivered) =>
      if found.Some? && found.value != target then
        (if delivered then WithEnv(f, found.value, ReadOnly) else f).(phase := Demoting(found.value, target))
      else f.(phase := Ready(target, false))
    case SeeReadonly => if f.phase.Demoting? then f.(phase := Retagging(f.phase.prev, f.phase.target)) else f
    case GiveUp => if f.phase.Demoting? then f.(phase := Retagging(f.phase.prev, f.phase.target)) else f
    case Retag(written) =>
      if f.phase.Retagging? then (if written then WithTag(f, f.phase.prev, ReaderTag) else f).(phase := Ready(f.phase.target, false)) else f
    case Record(arrives, saved) =>
      if f.phase.Ready? then
        var arrived := arrives && Runs(f, f.phase.target);
        f.(phase := Recording(f.phase.target, arrived, f.phase.ended), recorded := if arrived && saved then Some(f.phase.target) else f.recorded)
      else f
    case Switch =>
      if f.phase.Recording? then
        (if f.phase.arrived then WithEnv(f, f.phase.target, ReadWrite) else f)
        .(phase := if f.phase.ended then Idle else Switched(f.phase.target))
      else f
    case Finish(tagged, saved) =>
      if Waits(f.phase) then
        (if tagged then WithTag(f, f.phase.target, WriterTag) else f)
        .(phase := if Runs(f, f.phase.target) then Ended(f.phase) else Idle, recorded := if saved then Some(f.phase.target) else f.recorded)
      else f
  }

  /** A boot and the beginning of a promotion of which nothing is lost. */
  function FineBoot(id: string): Step { Boot(id, ALL, true, true) }

  function FineStart(target: string, found: Option<string>): Step { Start(target, found, true, true) }

  /** When a step can happen at all. */
  predicate Enabled(f: Fleet, s: Step) {
    match s
    case Boot(id, _, _, _) => id !in f.machines
    case Terminate(id) => Runs(f, id)
    case Restart(id) => Runs(f, id)
    case Start(target, found, answered, _) =>
      && f.phase.Idle? && Runs(f, target)
      && (if found.Some? then answered && TaggedWriter(f, found.value) else answered ==> !SomeTaggedWriter(f))
    case SeeReadonly => f.phase.Demoting? && Runs(f, f.phase.prev) && f.machines[f.phase.prev].service == ReadOnly
    case GiveUp => f.phase.Demoting?
    case Retag(_) => f.phase.Retagging?
    case Record(_, _) => f.phase.Ready?
    case Switch => f.phase.Recording?
    case Finish(_, _) => Waits(f.phase)
  }

  // ---- one writer ---------------------------------------------------------

  /** A running node that writes, or will after its next restart. */
  predicate Hot(f: Fleet, id: string) {
    Runs(f, id) && (f.machines[id].env == ReadWrite || f.machines[id].service == ReadWrite)
  }

  ghost predicate AtMostOneWriter(f: Fleet) {
    forall a, b :: Hot(f, a) && Hot(f, b) ==> a == b
  }

  predicate RecordedLive(f: Fleet) { f.recorded.Some? && Runs(f, f.recorded.value) }

  /** The tag search can find this node and no other. */
  ghost predicate OnlyTagged(f: Fleet, id: string) {
    forall n :: TaggedWriter(f, n) <==> n == id
  }

  /** SSM names the hot node, or the tag search finds it and no other. */
  ghost predicate Known(f: Fleet) {
    AtMostOneWriter(f) && forall n :: Hot(f, n) ==> f.recorded == Some(n) || OnlyTagged(f, n)
  }

  // ---- the rules ----------------------------------------------------------

  /** The promote request has not been served. */
  predicate Unserved(p: Phase) { p.Demoting? || p.Retagging? || p.Ready? }

  /** Nor has the script tried to name its target. */
  predicate BeforeRecord(p: Phase) { p.Demoting? || p.Retagging? || (p.Ready? && !p.ended) }

  /** The target of a promotion is hot, or may become so when the request is served. */
  predicate MayWrite(f: Fleet) {
    && !f.phase.Idle? && Runs(f, f.phase.target)
    && (Hot(f, f.phase.target) || f.phase.Ready? || (f.phase.Recording? && f.phase.arrived))
  }

  /** SSM names this node, or the tag search finds it and no other. */
  ghost predicate Named(f: Fleet, id: string) { f.recorded == Some(id) || OnlyTagged(f, id) }

  /** A promotion whose end leaves SSM or the tags naming its target, if that is or may become a writer. */
  ghost predicate EndsKnown(f: Fleet, tagged: bool, saved: bool)
    requires Waits(f.phase)
  {
    var target := f.phase.target;
    || saved || f.recorded == Some(target) || !MayWrite(f)
    || ((tagged || TaggedWriter(f, target)) && forall n :: TaggedWriter(f, n) ==> n == target)
  }

  /**
   What operations must respect, whatever lookups, requests and writes fail: no boot wins
   because a lookup failed, or while a promotion is under way whose target is still to become
   the writer; a winner's auth key is stored; a promotion starts only when its tag search is
   answered, with the node that SSM names if that one runs; its demotion arrives and is waited
   for, unless the old writer is gone; and it ends with its target named.
   */
  ghost predicate Careful(f: Fleet, s: Step) {
    match s
    case Boot(_, heard, _, keyed) =>
      Elects(f, heard) ==>
        BecomesWriter(f) && (keyed || f.authKey) && (f.phase.Idle? || (!BeforeRecord(f.phase) && !Runs(f, f.phase.target)))
    case Start(_, found, answered, delivered) => answered && delivered && (RecordedLive(f) ==> found == f.recorded)
    case GiveUp => f.phase.Demoting? ==> !Runs(f, f.phase.prev)
    case Finish(tagged, saved) => Waits(f.phase) ==> EndsKnown(f, tagged, saved)
    case _ => true
  }

  /** Nothing the step asks, sends or writes is lost. */
  predicate Written(s: Step) {
    match s
    case Boot(_, heard, saved, keyed) => heard == ALL && saved && keyed
    case Start(_, _, answered, delivered) => answered && delivered
    case Retag(written) => written
    case Record(arrives, saved) => arrives && saved
    case Finish(tagged, saved) => tagged && saved
    case _ => true
  }

  /** The rules that are left then: wait for the demotion, and no boot wins before the target is recorded. */
  predicate Patient(f: Fleet, s: Step) {
    match s
    case Boot(_, _, _, _) => BeforeRecord(f.phase) ==> !BecomesWriter(f)
    case GiveUp => f.phase.Demoting? ==> !Runs(f, f.phase.prev)
    case _ => true
  }

  /**
   The everyday rules: promotions start while the recorded writer runs, the demotion
   request arrives and its wait ends by seeing "readonly", and whoever is recorded as
   writer is not terminated while a promotion is under way. Boots may fall anywhere.
   */
  predicate Orderly(f: Fleet, s: Step) {
    match s
    case Start(_, _, _, delivered) => delivered && RecordedLive(f)
    case GiveUp => false
    case Terminate(id) => !f.phase.Idle? ==> f.recorded != Some(id)
    case _ => true
  }

  /** The checks that failed lookups and lost writes make necessary. */
  ghost predicate Checked(f: Fleet, s: Step) {
    match s
    case Boot(_, heard, _, keyed) => Elects(f, heard) ==> BecomesWriter(f) && (keyed || f.authKey)
    case Start(_, found, _, _) => found == f.recorded
    case Finish(tagged, saved) => Waits(f.phase) ==> EndsKnown(f, tagged, saved)
    case _ => true
  }

  /** What a run keeps to. */
  datatype Rules = Anything | Care | Patience | Everyday | EverydayWritten | EverydayChecked

  ghost predicate Allows(r: Rules, f: Fleet, s: Step) {
    match r
    case Anything => true
    case Care => Careful(f, s)
    case Patience => Written(s) && Patient(f, s)
    case Everyday => Orderly(f, s)
    case EverydayWritten => Written(s) && Orderly(f, s)
    case EverydayChecked => Checked(f, s) && Orderly(f, s)
  }

  // ---- runs ---------------------------------------------------------------

  function Run(f: Fleet, steps: seq<Step>): Fleet {
    if steps == [] then f else Apply(Run(f, steps[..|steps| - 1]), steps[|steps| - 1])
  }

  /** Before the first instance boots. */
  const NOTHING := Fleet(map[], false, None, Idle)

  /** Step i could happen in its place, and the rules allow it there. */
  ghost predicate GoodStep(r: Rules, f: Fleet, steps: seq<Step>, i: nat)
    requires i < |steps|
  {
    Enabled(Run(f, steps[..i]), steps[i]) && Allows(r, Run(f, steps[..i]), steps[i])
  }

  /** The first n steps from f on could all happen one after the other, and keep to the rules. */
  ghost predicate Under(r: Rules, f: Fleet, steps: seq<Step>, n: nat)
    requires n <= |steps|
  {
    forall i :: 0 <= i < n ==> GoodStep(r, f, steps, i)
  }

  /** Some run under the rules leads to two writers. */
  ghost predicate LeadsToTwo(r: Rules, f: Fleet) {
    exists steps :: Under(r, f, steps, |steps|) && !AtMostOneWriter(Run(f, steps))
  }

  lemma RunStep(f: Fleet, steps: seq<Step>, i: nat)
    requires i < |steps|
    ensures Run(f, steps[..i + 1]) == Apply(Run(f, steps[..i]), steps[i])
  {
    assert steps[..i + 1][..i] == steps[..i];
  }

  lemma NoStepsYet(r: Rules, f: Fleet)
    ensures Under(r, f, [], 0) && Run(f, []) == f
  {
  }

  lemma OneMore(r: Rules, f: Fleet, steps: seq<Step>, s: Step)
    requires Under(r, f, steps, |steps|) && Enabled(Run(f, steps), s) && Allows(r, Run(f, steps), s)
    ensures Under(r, f, steps + [s], |steps| + 1) && Run(f, steps + [s]) == Apply(Run(f, steps), s)
  {
    hide Enabled, Allows, Apply;
    var more := steps + [s];
    assert more[..|steps|] == steps;
    forall i | 0 <= i < |more| ensures GoodStep(r, f, more, i) {
      if i < |steps| { assert more[..i] == steps[..i] && GoodStep(r, f, steps, i); }
    }
  }

  // ---- care ---------------------------------------------------------------

  ghost predicate HotOnly(f: Fleet, id: string) {
    forall n :: Hot(f, n) ==> n == id
  }

  /** The tag search tells who writes. */
  ghost predicate TookOver(f: Fleet) {
    AtMostOneWriter(f) && forall n :: Hot(f, n) ==> OnlyTagged(f, n)
  }

  /** Every instance booted after the auth key was stored; a promotion is about instances there are. */
  ghost predicate Grounded(f: Fleet) {
    && (forall id :: id in f.machines ==> f.authKey)
    && (!f.phase.Idle? ==> f.phase.target in f.machines)
    && (f.phase.Demoting? || f.phase.Retagging? ==> f.phase.prev in f.machines)
  }

  /** Only the target of a promotion is hot, or whoever became so after the target died. */
  ghost predicate Passed(f: Fleet, target: string) { if Runs(f, target) then HotOnly(f, target) else TookOver(f) }

  ghost predicate Inv(f: Fleet) {
    && Grounded(f)
    && match f.phase
       case Idle => Known(f)
       case Demoting(prev, _) => HotOnly(f, prev) && (Runs(f, prev) ==> f.machines[prev].env == ReadOnly)
       case Retagging(_, _) => forall n :: !Hot(f, n)
       case Ready(target, ended) => if ended then Passed(f, target) && (MayWrite(f) ==> Named(f, target)) else HotOnly(f, target)
       case Recording(target, _, ended) => Passed(f, target) && (ended && MayWrite(f) ==> Named(f, target))
       case Switched(target) => Passed(f, target)
  }

  lemma InvMeansOneWriter(f: Fleet)
    requires Inv(f)
    ensures AtMostOneWriter(f)
  {
  }

  lemma GroundedKeeps(f: Fleet, s: Step)
    requires Grounded(f) && Enabled(f, s) && (s.Boot? && Elects(f, s.heard) ==> s.keyed || f.authKey)
    ensures Grounded(Apply(f, s))
  {
  }

  /** What a boot changes. */
  lemma BootLeaves(f: Fleet, s: Step)
    requires s.Boot? && Enabled(f, s)
    ensures var g := Apply(f, s); var wins := Elects(f, s.heard);
      && !Runs(f, s.id) && g.phase == f.phase && g.recorded == (if wins && s.saved then Some(s.id) else f.recorded)
      && (forall n :: n in f.machines ==> n in g.machines && g.machines[n] == f.machines[n])
      && (forall n :: Runs(g, n) <==> Runs(f, n) || n == s.id)
      && (forall n :: Hot(g, n) <==> Hot(f, n) || (n == s.id && wins))
      && (forall n :: TaggedWriter(g, n) <==> TaggedWriter(f, n) || (n == s.id && wins))
  {
    hide Elects;
  }

  /** A boot that wins rightly finds no writer, by SSM or by its tag. */
  lemma NobodyBefore(f: Fleet)
    requires Grounded(f) && BecomesWriter(f)
    ensures !RecordedLive(f) && forall n :: !TaggedWriter(f, n)
  {
    forall n ensures !TaggedWriter(f, n) {
      assert n in f.machines ==> f.authKey;
    }
  }

  lemma BootKeeps(f: Fleet, s: Step)
    requires s.Boot? && Inv(f) && Enabled(f, s) && Careful(f, s)
    ensures Inv(Apply(f, s))
  {
    GroundedKeeps(f, s);
    BootLeaves(f, s);
    if Elects(f, s.heard) { NobodyBefore(f); }
    hide TaggedWriter, Elects, Apply;
  }

  lemma StopKeeps(f: Fleet, id: string)
    requires Inv(f) && Runs(f, id)
    ensures Inv(Apply(f, Terminate(id)))
  {
    var g := Apply(f, Terminate(id));
    GroundedKeeps(f, Terminate(id));
    forall n ensures Hot(g, n) == (Hot(f, n) && n != id) && TaggedWriter(g, n) == (TaggedWriter(f, n) && n != id) {
    }
  }

  lemma RestartKeeps(f: Fleet, id: string)
    requires Inv(f) && Runs(f, id)
    ensures Inv(Apply(f, Restart(id)))
  {
    var g := Apply(f, Restart(id));
    GroundedKeeps(f, Restart(id));
    forall n ensures (Hot(g, n) ==> Hot(f, n)) && TaggedWriter(g, n) == TaggedWriter(f, n) && Runs(g, n) == Runs(f, n) {
    }
  }

  lemma StartKeeps(f: Fleet, s: Step)
    requires s.Start? && Inv(f) && Enabled(f, s) && Careful(f, s)
    ensures Inv(Apply(f, s))
  {
    var g := Apply(f, s);
    forall n ensures Runs(g, n) == Runs(f, n) && (Hot(g, n) ==> Hot(f, n)) {
    }
    forall n | Hot(f, n) ensures s.found == Some(n) {
      if f.recorded != Some(n) { assert TaggedWriter(f, n) && n in f.machines; }
    }
  }

  /** What the final writes leave. */
  lemma FinishLeaves(f: Fleet, tagged: bool, saved: bool)
    requires Waits(f.phase)
    ensures var g := Apply(f, Finish(tagged, saved)); var target := f.phase.target;
      && (forall n :: Runs(g, n) == Runs(f, n) && Hot(g, n) == Hot(f, n))
      && (forall n :: TaggedWriter(g, n) <==> TaggedWriter(f, n) || (tagged && n == target && Runs(f, n)))
      && ((MayWrite(f) ==> Named(g, target)) <==> EndsKnown(f, tagged, saved))
  {
    var g := Apply(f, Finish(tagged, saved));
    var target := f.phase.target;
    forall n ensures TaggedWriter(g, n) <==> TaggedWriter(f, n) || (tagged && n == target && Runs(f, n)) {
    }
    if MayWrite(f) {
      assert OnlyTagged(g, target) <==> (tagged || TaggedWriter(f, target)) && forall n :: TaggedWriter(f, n) ==> n == target;
    }
  }

  lemma FinishKeeps(f: Fleet, s: Step)
    requires s.Finish? && Inv(f) && Enabled(f, s) && Careful(f, s)
    ensures Inv(Apply(f, s))
  {
    hide EndsKnown;
    FinishLeaves(f, s.tagged, s.saved);
    GroundedKeeps(f, s);
  }

  /** After a promotion that leaves no other node hot, SSM or the tags tell who the writer is exactly in these cases. */
  lemma KnownAfter(f: Fleet, tagged: bool, saved: bool)
    requires f.phase.Switched?
    ensures HotOnly(f, f.phase.target) ==> (Known(Apply(f, Finish(tagged, saved))) <==> EndsKnown(f, tagged, saved))
  {
    hide EndsKnown, OnlyTagged;
    FinishLeaves(f, tagged, saved);
  }

  lemma ScriptKeeps(f: Fleet, s: Step)
    requires Inv(f) && Enabled(f, s) && Careful(f, s)
    requires s.SeeReadonly? || s.GiveUp? || s.Retag? || s.Record? || s.Switch?
    ensures Inv(Apply(f, s))
  {
    var g := Apply(f, s);
    forall n ensures Runs(g, n) == Runs(f, n) {
    }
    forall n ensures TaggedWriter(g, n) <==> TaggedWriter(f, n) && !(s.Retag? && s.written && n == f.phase.prev) {
    }
    forall n ensures Hot(g, n) && !Hot(f, n) ==> s.Switch? && n == f.phase.target && Runs(f, n) && f.phase.arrived {
    }
    forall n ensures Hot(f, n) ==> Hot(g, n) {
    }
  }

  /** Every enabled step that operations allow keeps the invariant, whatever writes are lost. */
  lemma StepKeeps(f: Fleet, s: Step)
    requires Inv(f) && Enabled(f, s) && Careful(f, s)
    ensures Inv(Apply(f, s))
  {
    hide Inv, Careful;
    match s
    case Boot(_, _, _, _) => BootKeeps(f, s);
    case Terminate(id) => StopKeeps(f, id);
    case Restart(id) => RestartKeeps(f, id);
    case Start(_, _, _, _) => StartKeeps(f, s);
    case Finish(_, _) => FinishKeeps(f, s);
    case _ => ScriptKeeps(f, s);
  }

  lemma {:induction false} CareKeeps(f: Fleet, steps: seq<Step>, i: nat)
    requires i <= |steps| && Inv(f) && Under(Care, f, steps, i)
    ensures Inv(Run(f, steps[..i]))
  {
    if i == 0 {
      assert Run(f, steps[..0]) == f;
    } else {
      hide Inv, Enabled, Careful, Apply, Run;
      CareKeeps(f, steps, i - 1);
      RunStep(f, steps, i - 1);
      assert GoodStep(Care, f, steps, i - 1);
      StepKeeps(Run(f, steps[..i - 1]), steps[i - 1]);
    }
  }

  /**
   At every moment of a careful run at most one running node has readwrite as env mode or
   as service mode, whichever tag, SSM and request failures the scripts swallow.
   */
  lemma SingleWriter(steps: seq<Step>, i: nat)
    requires i <= |steps| && Under(Care, NOTHING, steps, i)
    ensures AtMostOneWriter(Run(NOTHING, steps[..i]))
  {
    CareKeeps(NOTHING, steps, i);
    InvMeansOneWriter(Run(NOTHING, steps[..i]));
  }

  // ---- patience, when nothing is lost -------------------------------------

  ghost predicate TaggedAtMost(f: Fleet, id: string) {
    forall n :: TaggedWriter(f, n) ==> n == id
  }

  ghost predicate OneTag(f: Fleet) {
    forall a, b :: TaggedWriter(f, a) && TaggedWriter(f, b) ==> a == b
  }

  /** The tag search tells who writes, if anyone does, and finds no more than one node. */
  ghost predicate TagsTell(f: Fleet) { OneTag(f) && TookOver(f) }

  /** A recorded target that runs is all that is tagged or hot; if it died, the tags tell. */
  ghost predicate Taken(f: Fleet, target: string) {
    if Runs(f, target) then TaggedAtMost(f, target) && HotOnly(f, target) && f.recorded == Some(target) else TagsTell(f)
  }

  ghost predicate Told(f: Fleet) {
    && Grounded(f)
    && match f.phase
       case Idle => TagsTell(f)
       case Demoting(prev, _) => TaggedAtMost(f, prev) && HotOnly(f, prev) && (Runs(f, prev) ==> f.machines[prev].env == ReadOnly)
       case Retagging(prev, _) => TaggedAtMost(f, prev) && forall n :: !Hot(f, n)
       case Ready(target, ended) =>
         if ended then Taken(f, target) && (Runs(f, target) ==> TaggedWriter(f, target))
         else TaggedAtMost(f, target) && HotOnly(f, target)
       case Recording(target, _, ended) => Taken(f, target) && (ended && Runs(f, target) ==> TaggedWriter(f, target))
       case Switched(target) => Taken(f, target)
  }

  lemma ToldMeansOneWriter(f: Fleet)
    requires Told(f)
    ensures AtMostOneWriter(f)
  {
  }

  lemma ToldBoot(f: Fleet, s: Step)
    requires Told(f) && Enabled(f, s) && Written(s) && Patient(f, s) && s.Boot?
    ensures Told(Apply(f, s))
  {
    GroundedKeeps(f, s);
    BootLeaves(f, s);
    if BecomesWriter(f) { NobodyBefore(f); }
    hide Hot, TaggedWriter, Elects, Apply;
  }

  lemma ToldOutside(f: Fleet, s: Step)
    requires Told(f) && Enabled(f, s) && (s.Terminate? || s.Restart?)
    ensures Told(Apply(f, s))
  {
    var g := Apply(f, s);
    GroundedKeeps(f, s);
    forall n ensures TaggedWriter(g, n) == (TaggedWriter(f, n) && !(s.Terminate? && n == s.id)) {
    }
    forall n ensures (Hot(g, n) ==> Hot(f, n)) && Runs(g, n) == (Runs(f, n) && !(s.Terminate? && n == s.id)) {
    }
  }

  lemma ToldStart(f: Fleet, s: Step)
    requires Told(f) && Enabled(f, s) && Written(s) && s.Start?
    ensures Told(Apply(f, s))
  {
    var g := Apply(f, s);
    forall n ensures Runs(g, n) == Runs(f, n) && TaggedWriter(g, n) == TaggedWriter(f, n) && (Hot(g, n) ==> Hot(f, n)) {
    }
    forall n ensures (TaggedWriter(f, n) ==> s.found == Some(n)) && (Hot(f, n) ==> s.found == Some(n)) {
      if TaggedWriter(f, n) { assert n in f.machines; }
      if Hot(f, n) { assert TaggedWriter(f, n) && n in f.machines; }
    }
  }

  lemma ToldScript(f: Fleet, s: Step)
    requires Told(f) && Enabled(f, s) && Written(s) && Patient(f, s) && !s.Boot? && !s.Terminate? && !s.Restart? && !s.Start?
    ensures Told(Apply(f, s))
  {
    var g := Apply(f, s);
    GroundedKeeps(f, s);
    forall n ensures Runs(g, n) == Runs(f, n) {
    }
    forall n ensures TaggedWriter(g, n) <==>
      Runs(f, n) && (if s.Finish? && n == f.phase.target then true else if s.Retag? && n == f.phase.prev then false else TaggedWriter(f, n)) {
    }
    forall n ensures Hot(g, n) <==> Hot(f, n) || (s.Switch? && n == f.phase.target && Runs(f, n) && f.phase.arrived) {
    }
  }

  lemma {:induction false} PatienceKeeps(f: Fleet, steps: seq<Step>, i: nat)
    requires i <= |steps| && Told(f) && Under(Patience, f, steps, i)
    ensures Told(Run(f, steps[..i]))
  {
    if i == 0 {
      assert Run(f, steps[..0]) == f;
    } else {
      hide Told, Enabled, Patient, Written, Apply, Run;
      PatienceKeeps(f, steps, i - 1);
      RunStep(f, steps, i - 1);
      assert GoodStep(Patience, f, steps, i - 1);
      var (g, s) := (Run(f, steps[..i - 1]), steps[i - 1]);
      match s
      case Boot(_, _, _, _) => ToldBoot(g, s);
      case Terminate(_) => ToldOutside(g, s);
      case Restart(_) => ToldOutside(g, s);
      case Start(_, _, _, _) => ToldStart(g, s);
      case _ => ToldScript(g, s);
    }
  }

  /** When nothing is lost, patience alone keeps the writer single. */
  lemma WrittenSingleWriter(steps: seq<Step>, i: nat)
    requires i <= |steps| && Under(Patience, NOTHING, steps, i)
    ensures AtMostOneWriter(Run(NOTHING, steps[..i]))
  {
    PatienceKeeps(NOTHING, steps, i);
    ToldMeansOneWriter(Run(NOTHING, steps[..i]));
  }

  // ---- promotions that start from a live writer ---------------------------

  ghost predicate MidPromotionLive(f: Fleet) { !f.phase.Idle? ==> RecordedLive(f) }

  lemma OrderlyKeepsLive(f: Fleet, s: Step)
    requires Grounded(f) && MidPromotionLive(f) && Enabled(f, s) && Orderly(f, s)
    ensures MidPromotionLive(Apply(f, s)) && Patient(f, s)
    ensures s.Boot? && !f.phase.Idle? ==> !BecomesWriter(f)
    ensures Checked(f, s) ==> Careful(f, s)
  {
    assert !f.phase.Idle? ==> f.phase.target in f.machines && f.authKey;
  }

  /** Either nothing is ever lost, or the checks are made. */
  predicate Guarded(r: Rules) { r == EverydayWritten || r == EverydayChecked }

  /** What a guarded run also keeps to. */
  function Behind(r: Rules): Rules { if r == EverydayWritten then Patience else Care }

  lemma EverydayStep(r: Rules, f: Fleet, s: Step)
    requires Guarded(r) && Grounded(f) && MidPromotionLive(f) && Enabled(f, s) && Allows(r, f, s)
    ensures Grounded(Apply(f, s)) && MidPromotionLive(Apply(f, s)) && Allows(Behind(r), f, s)
  {
    hide Grounded, MidPromotionLive, Enabled, Orderly, Patient, Careful, EndsKnown, BecomesWriter, Apply;
    OrderlyKeepsLive(f, s);
    GroundedKeeps(f, s);
  }

  lemma {:induction false} EverydayKeeps(r: Rules, steps: seq<Step>, i: nat)
    requires Guarded(r) && i <= |steps| && Under(r, NOTHING, steps, i)
    ensures Grounded(Run(NOTHING, steps[..i])) && MidPromotionLive(Run(NOTHING, steps[..i]))
    ensures Under(Behind(r), NOTHING, steps, i)
  {
    if i == 0 {
      assert Run(NOTHING, steps[..0]) == NOTHING;
    } else {
      hide Grounded, Enabled, Allows, Apply, MidPromotionLive, Run, Behind, Guarded;
      EverydayKeeps(r, steps, i - 1);
      assert GoodStep(r, NOTHING, steps, i - 1);
      RunStep(NOTHING, steps, i - 1);
      EverydayStep(r, Run(NOTHING, steps[..i - 1]), steps[i - 1]);
      assert GoodStep(Behind(r), NOTHING, steps, i - 1);
    }
  }

  /** Under the everyday rules there is never more than one writer, if nothing is lost or the checks are made. */
  lemma OrderlySingleWriter(r: Rules, steps: seq<Step>, i: nat)
    requires Guarded(r) && i <= |steps| && Under(r, NOTHING, steps, i)
    ensures AtMostOneWriter(Run(NOTHING, steps[..i]))
  {
    hide Under, Run, AtMostOneWriter;
    EverydayKeeps(r, steps, i);
    if r == EverydayWritten { WrittenSingleWriter(steps, i); } else { SingleWriter(steps, i); }
  }

  /** And every boot that falls between two steps of a promotion elects a reader. */
  lemma BootMidPromotionReads(r: Rules, steps: seq<Step>, i: nat)
    requires Guarded(r) && i < |steps| && Under(r, NOTHING, steps, i + 1) && steps[i].Boot? && !Run(NOTHING, steps[..i]).phase.Idle?
    ensures !Elects(Run(NOTHING, steps[..i]), steps[i].heard)
    ensures Run(NOTHING, steps[..i + 1]).machines[steps[i].id] == READER
  {
    EverydayKeeps(r, steps, i);
    RunStep(NOTHING, steps, i);
    assert GoodStep(r, NOTHING, steps, i);
    OrderlyKeepsLive(Run(NOTHING, steps[..i]), steps[i]);
  }

  // ---- a promoted node writes ---------------------------------------------

  /** The rules that keep the writer single. */
  predicate Suffices(r: Rules) { r != Anything && r != Everyday }

  lemma SingleUnder(r: Rules, steps: seq<Step>, i: nat)
    requires Suffices(r) && i <= |steps| && Under(r, NOTHING, steps, i)
    ensures AtMostOneWriter(Run(NOTHING, steps[..i]))
  {
    hide Under, AtMostOneWriter, Run;
    match r
    case Care => SingleWriter(steps, i);
    case Patience => WrittenSingleWriter(steps, i);
    case _ => OrderlySingleWriter(r, steps, i);
  }

  /** The service runs in readwrite mode: it takes puts. */
  predicate Serves(f: Fleet, id: string) { Runs(f, id) && f.machines[id].service == ReadWrite }

  ghost predicate OnlyServes(f: Fleet, id: string) { forall n :: Serves(f, n) ==> n == id }

  lemma ModeStep(f: Fleet, s: Step, id: string)
    requires Enabled(f, s) && Runs(f, id) && f.machines[id].env == ReadWrite
    requires s != Terminate(id) && !(s.Start? && s.found == Some(id))
    ensures Runs(Apply(f, s), id) && Apply(f, s).machines[id].env == ReadWrite
    ensures s == Restart(id) ==> Serves(Apply(f, s), id)
  {
  }

  /** The env file stays in readwrite mode until the tag search of a promotion finds the node, or it stops. */
  lemma {:induction false} ModeStays(r: Rules, steps: seq<Step>, i: nat, j: nat, id: string)
    requires i <= j <= |steps| && Under(r, NOTHING, steps, j)
    requires var f := Run(NOTHING, steps[..i]); Runs(f, id) && f.machines[id].env == ReadWrite
    requires forall k :: i <= k < j ==> steps[k] != Terminate(id) && !(steps[k].Start? && steps[k].found == Some(id))
    ensures var g := Run(NOTHING, steps[..j]); Runs(g, id) && g.machines[id].env == ReadWrite
    decreases j
  {
    hide Enabled, Allows, Apply, Run, Runs;
    if i < j {
      ModeStays(r, steps, i, j - 1, id);
      assert GoodStep(r, NOTHING, steps, j - 1);
      RunStep(NOTHING, steps, j - 1);
      ModeStep(Run(NOTHING, steps[..j - 1]), steps[j - 1], id);
    }
  }

  /**
   A promotion delivers a writer: once its request was served by a running target, the next
   restart of the target leaves its service in readwrite mode, whatever else happens until
   then, unless the target stops or another promotion finds it; and under rules that suffice
   no other service is in that mode.
   */
  lemma PromotedServes(r: Rules, steps: seq<Step>, i: nat, j: nat, target: string)
    requires i < j < |steps| && Under(r, NOTHING, steps, |steps|)
    requires var f := Run(NOTHING, steps[..i]);
      steps[i] == Switch && f.phase.Recording? && f.phase.target == target && f.phase.arrived && Runs(f, target)
    requires steps[j] == Restart(target)
    requires forall k :: i < k < j ==> steps[k] != Terminate(target) && !(steps[k].Start? && steps[k].found == Some(target))
    ensures Serves(Run(NOTHING, steps[..j + 1]), target)
    ensures Suffices(r) ==> OnlyServes(Run(NOTHING, steps[..j + 1]), target)
  {
    hide Allows, Run, Enabled, AtMostOneWriter, Suffices;
    RunStep(NOTHING, steps, i);
    ModeStays(r, steps, i + 1, j, target);
    assert GoodStep(r, NOTHING, steps, j);
    RunStep(NOTHING, steps, j);
    ModeStep(Run(NOTHING, steps[..j]), steps[j], target);
    if Suffices(r) { OnlyOneServes(r, steps, j + 1, target); }
  }

  lemma OnlyOneServes(r: Rules, steps: seq<Step>, i: nat, id: string)
    requires Suffices(r) && i <= |steps| && Under(r, NOTHING, steps, |steps|) && Serves(Run(NOTHING, steps[..i]), id)
    ensures OnlyServes(Run(NOTHING, steps[..i]), id)
  {
    hide Run, Suffices, GoodStep;
    SingleUnder(r, steps, i);
    forall n | Serves(Run(NOTHING, steps[..i]), n) ensures n == id {
      assert Hot(Run(NOTHING, steps[..i]), n) && Hot(Run(NOTHING, steps[..i]), id);
    }
  }

  /** A request that is served after the end of its script makes the target a writer all the same. */
  lemma LateRequestPromotes(f: Fleet, tagged: bool, named: bool, saved: bool)
    requires f.phase.Ready? && !f.phase.ended && Runs(f, f.phase.target)
    ensures var (t, g) := (f.phase.target, Apply(Apply(Apply(f, Finish(tagged, named)), Record(true, saved)), Switch));
      && g.phase.Idle? && Hot(g, t) && Serves(Apply(g, Restart(t)), t)
      && (forall n :: n != t ==> Hot(g, n) == Hot(f, n))
      && g.recorded == (if named || saved then Some(t) else f.recorded)
  {
  }

  // ---- what lost writes leave ---------------------------------------------

  /** A promotion under the rules of some x while another node w is hot and not demoted. */
  lemma PromotedBeside(r: Rules, f: Fleet, before: seq<Step>, x: string, w: string)
    requires (r == Care || r == Patience) && Under(r, f, before, |before|)
    requires var g := Run(f, before);
      && g.phase.Idle? && Runs(g, x) && Hot(g, w) && w != x && (TaggedWriter(g, x) || !SomeTaggedWriter(g))
      && (r == Care && RecordedLive(g) ==> TaggedWriter(g, x) && g.recorded == Some(x))
    ensures LeadsToTwo(r, f)
  {
    hide Under, Run;
    var found := if TaggedWriter(Run(f, before), x) then Some(x) else None;
    OneMore(r, f, before, FineStart(x, found));
    var s1 := before + [FineStart(x, found)];
    OneMore(r, f, s1, Record(true, true));
    var s2 := s1 + [Record(true, true)];
    OneMore(r, f, s2, Switch);
    var h := Run(f, s2 + [Switch]);
    assert Hot(h, x) && Hot(h, w);
  }

  /** A stray tag, or none at all, and patience leads to two writers. */
  lemma HiddenWriter(f: Fleet, w: string, newcomer: string)
    requires f.phase.Idle? && Hot(f, w) && !OnlyTagged(f, w) && newcomer !in f.machines
    ensures LeadsToTwo(Patience, f)
  {
    hide Under, Run, LeadsToTwo;
    NoStepsYet(Patience, f);
    if x :| TaggedWriter(f, x) && x != w {
      PromotedBeside(Patience, f, [], x, w);
    } else {
      assert !TaggedWriter(f, w);
      OneMore(Patience, f, [], FineBoot(newcomer));
      var steps := [FineBoot(newcomer)];
      assert [] + steps == steps;
      var g := Run(f, steps);
      forall n | n != newcomer ensures Hot(g, n) == Hot(f, n) && TaggedWriter(g, n) == TaggedWriter(f, n) {
      }
      if BecomesWriter(f) {
        TwoReached(Patience, f, steps, newcomer, w);
      } else {
        PromotedBeside(Patience, f, steps, newcomer, w);
      }
    }
  }

  lemma TwoReached(r: Rules, f: Fleet, steps: seq<Step>, a: string, b: string)
    requires Under(r, f, steps, |steps|) && a != b && Hot(Run(f, steps), a) && Hot(Run(f, steps), b)
    ensures LeadsToTwo(r, f)
  {
  }

  /** Two nodes tagged as writer: promoting one leaves the other to be promoted after it. */
  lemma TwoTags(f: Fleet, a: string, b: string)
    requires f.phase.Idle? && TaggedWriter(f, a) && TaggedWriter(f, b) && a != b
    ensures LeadsToTwo(Patience, f)
  {
    hide Under, Run, LeadsToTwo;
    NoStepsYet(Patience, f);
    var s0: seq<Step> := [];
    OneMore(Patience, f, s0, FineStart(a, Some(a)));
    var s1 := s0 + [FineStart(a, Some(a))];
    OneMore(Patience, f, s1, Record(true, true));
    var s2 := s1 + [Record(true, true)];
    OneMore(Patience, f, s2, Switch);
    var s3 := s2 + [Switch];
    OneMore(Patience, f, s3, Finish(true, true));
    var s4 := s3 + [Finish(true, true)];
    var g := Run(f, s4);
    assert Hot(g, a) && TaggedWriter(g, b);
    PromotedBeside(Patience, f, s4, b, a);
  }

  /**
   Whatever was lost before, operation that loses nothing more and is patient can lead from
   an idle fleet to two writers exactly when the tag search finds more than one node or
   does not find the writer. What SSM says makes no difference.
   */
  lemma PatienceExactly(f: Fleet, newcomer: string)
    requires f.phase.Idle? && f.authKey && newcomer !in f.machines
    ensures LeadsToTwo(Patience, f) <==> !TagsTell(f)
  {
    hide Under, Run, Told, OnlyTagged;
    if TagsTell(f) {
      assert Told(f) by { ToldWhenIdle(f); }
      forall steps | Under(Patience, f, steps, |steps|) ensures AtMostOneWriter(Run(f, steps)) {
        PatienceKeeps(f, steps, |steps|);
        assert steps[..|steps|] == steps;
        ToldMeansOneWriter(Run(f, steps));
      }
    } else if !AtMostOneWriter(f) {
      var none: seq<Step> := [];
      NoStepsYet(Patience, f);
      assert Under(Patience, f, none, |none|) && Run(f, none) == f;
    } else if w :| Hot(f, w) && !OnlyTagged(f, w) {
      HiddenWriter(f, w, newcomer);
    } else {
      var a, b :| TaggedWriter(f, a) && TaggedWriter(f, b) && a != b;
      TwoTags(f, a, b);
    }
  }

  lemma ToldWhenIdle(f: Fleet)
    requires f.phase.Idle? && f.authKey && TagsTell(f)
    ensures Told(f)
  {
  }

  /** For a fleet with one writer that is: exactly when the tag search does not find it alone. */
  lemma PatienceWithWriter(f: Fleet, w: string, newcomer: string)
    requires f.phase.Idle? && f.authKey && Hot(f, w) && AtMostOneWriter(f) && newcomer !in f.machines
    ensures LeadsToTwo(Patience, f) <==> !OnlyTagged(f, w)
  {
    hide LeadsToTwo;
    PatienceExactly(f, newcomer);
  }

  /**
   With the checks made, and anything lost, it is what SSM says that makes the difference:
   careful operation can lead from an idle fleet to two writers exactly when neither SSM
   nor the tags alone name the writer.
   */
  lemma CareExactly(f: Fleet, newcomer: string)
    requires f.phase.Idle? && f.authKey && newcomer !in f.machines
    ensures LeadsToTwo(Care, f) <==> !Known(f)
  {
    hide Under, Run, Inv, OnlyTagged;
    if Known(f) {
      assert Inv(f) by { InvWhenIdle(f); }
      forall steps | Under(Care, f, steps, |steps|) ensures AtMostOneWriter(Run(f, steps)) {
        CareKeeps(f, steps, |steps|);
        assert steps[..|steps|] == steps;
        InvMeansOneWriter(Run(f, steps));
      }
    } else if !AtMostOneWriter(f) {
      var none: seq<Step> := [];
      NoStepsYet(Care, f);
      assert Under(Care, f, none, |none|) && Run(f, none) == f;
    } else {
      var w :| Hot(f, w) && f.recorded != Some(w) && !OnlyTagged(f, w);
      UnnamedWriter(f, w, newcomer);
    }
  }

  lemma InvWhenIdle(f: Fleet)
    requires f.phase.Idle? && f.authKey && Known(f)
    ensures Inv(f)
  {
  }

  /** The recorded node dies, if it runs; then a promotion of a stray tag, or a boot, makes a second writer. */
  lemma UnnamedWriter(f: Fleet, w: string, newcomer: string)
    requires f.phase.Idle? && f.authKey && Hot(f, w) && f.recorded != Some(w) && !OnlyTagged(f, w) && newcomer !in f.machines
    ensures LeadsToTwo(Care, f)
  {
    hide Under, Run, LeadsToTwo;
    NoStepsYet(Care, f);
    if RecordedLive(f) && TaggedWriter(f, f.recorded.value) {
      PromotedBeside(Care, f, [], f.recorded.value, w);
    } else {
      var steps: seq<Step> := [];
      if RecordedLive(f) {
        OneMore(Care, f, steps, Terminate(f.recorded.value));
        steps := steps + [Terminate(f.recorded.value)];
      }
      var g := Run(f, steps);
      forall n ensures TaggedWriter(g, n) == TaggedWriter(f, n) {
      }
      assert Hot(g, w) && !RecordedLive(g) && g.recorded == f.recorded && newcomer !in g.machines;
      UnrecordedWriter(f, steps, w, newcomer);
    }
  }

  lemma UnrecordedWriter(f: Fleet, steps: seq<Step>, w: string, newcomer: string)
    requires Under(Care, f, steps, |steps|)
    requires var g := Run(f, steps);
      g.phase.Idle? && g.authKey && Hot(g, w) && !RecordedLive(g) && !OnlyTagged(g, w) && newcomer !in g.machines
    ensures LeadsToTwo(Care, f)
  {
    hide Under, Run, LeadsToTwo;
    var g := Run(f, steps);
    if x :| TaggedWriter(g, x) && x != w {
      PromotedBeside(Care, f, steps, x, w);
    } else {
      assert !TaggedWriter(g, w);
      assert BecomesWriter(g);
      OneMore(Care, f, steps, FineBoot(newcomer));
      TwoReached(Care, f, steps + [FineBoot(newcomer)], newcomer, w);
    }
  }

  // ---- one promotion ------------------------------------------------------

  /** What becomes of a fleet when a promotion is carried on to the switch of its target. */
  function Completed(f: Fleet): Fleet {
    var r := if f.phase.Demoting? then Apply(f, SeeReadonly) else f;
    var q := if r.phase.Retagging? then Apply(r, Retag(true)) else r;
    Apply(Apply(q, Record(true, true)), Switch)
  }

  lemma CompletedHot(f: Fleet)
    requires Unserved(f.phase) && Runs(f, f.phase.target)
    ensures forall n :: Hot(Completed(f), n) <==> n == f.phase.target || Hot(f, n)
  {
    var r := if f.phase.Demoting? then Apply(f, SeeReadonly) else f;
    var q := if r.phase.Retagging? then Apply(r, Retag(true)) else r;
    forall n ensures Hot(q, n) == Hot(f, n) && Runs(q, n) == Runs(f, n) {
    }
    hide Unserved;
    var h := Apply(Apply(q, Record(true, true)), Switch);
    forall n ensures Hot(h, n) <==> n == f.phase.target || Hot(q, n) {
    }
  }

  /** A promotion from beginning to switch: its demotion arrives and the demoted node restarts. */
  function Promoted(f: Fleet, target: string, found: Option<string>): Fleet {
    var g := Apply(f, FineStart(target, found));
    Completed(if g.phase.Demoting? then Apply(g, Restart(g.phase.prev)) else g)
  }

  /**
   The next promotion, however tags and SSM have been lost before: with a demotion that
   arrives and is carried out it ends in two writers exactly when the writer there is, if
   it is not the target, is not the node the tag search found.
   */
  lemma NextPromotion(f: Fleet, target: string, found: Option<string>)
    requires AtMostOneWriter(f) && Enabled(f, FineStart(target, found))
    ensures AtMostOneWriter(Promoted(f, target, found)) <==> forall w :: Hot(f, w) && w != target ==> found == Some(w)
  {
    var g := Apply(f, FineStart(target, found));
    var r := if g.phase.Demoting? then Apply(g, Restart(g.phase.prev)) else g;
    forall n ensures Hot(r, n) <==> Hot(f, n) && !(g.phase.Demoting? && found == Some(n)) {
    }
    assert Runs(r, target);
    CompletedHot(r);
    var h := Promoted(f, target, found);
    assert Hot(h, target);
    if w :| Hot(f, w) && w != target && found != Some(w) { assert Hot(h, w); }
  }

  /**
   A boot at any time between the demotion request and the arrival of the promote request,
   even when the script has ended, once the old writer is no longer hot, ends in two writers exactly when the recorded
   writer is not running and no running instance carries the tag, or the lookups that would
   have told so fail.
   */
  lemma BootBeforeRecord(f: Fleet, s: Step)
    requires s.Boot? && Enabled(f, s)
    requires Inv(f) && Unserved(f.phase) && Runs(f, f.phase.target)
    requires f.phase.Demoting? ==> !Hot(f, f.phase.prev)
    ensures AtMostOneWriter(Completed(Apply(f, s))) <==>
      s.heard.key && ((RecordedLive(f) && s.heard.writer && s.heard.state) || (SomeTaggedWriter(f) && s.heard.tags))
  {
    var g := Apply(f, s);
    var h := Completed(g);
    var target := f.phase.target;
    assert f.authKey;
    forall n ensures Hot(g, n) <==> (n == s.id && Elects(f, s.heard)) || Hot(f, n) {
    }
    assert forall n :: Hot(f, n) ==> n == target;
    CompletedHot(g);
    assert s.id != target && Hot(h, target);
    if Elects(f, s.heard) { assert Hot(h, s.id); }
  }

  /** Promoting after a wait that ran out ends in two writers exactly when the old writer is still hot. */
  lemma PromoteAfterTimeout(f: Fleet)
    requires f.phase.Demoting? && HotOnly(f, f.phase.prev) && f.phase.prev != f.phase.target && Runs(f, f.phase.target)
    ensures AtMostOneWriter(Completed(f)) <==> !Hot(f, f.phase.prev)
    ensures Completed(f) == Apply(Apply(Apply(Apply(f, GiveUp), Retag(true)), Record(true, true)), Switch)
  {
    CompletedHot(f);
    var h := Completed(f);
    assert Hot(h, f.phase.target) && (Hot(f, f.phase.prev) ==> Hot(h, f.phase.prev));
  }

  // ---- two writers, reached -----------------------------------------------

  /** The first node becomes the writer, the others readers. */
  lemma ThreeBoots() returns (steps: seq<Step>)
    ensures Under(Everyday, NOTHING, steps, |steps|) && steps == [FineBoot("a"), FineBoot("b"), FineBoot("c")]
    ensures Run(NOTHING, steps) == Fleet(map["a" := WRITER, "b" := READER, "c" := READER], true, Some("a"), Idle)
  {
    hide Under, Run;
    NoStepsYet(Everyday, NOTHING);
    var s0: seq<Step> := [];
    OneMore(Everyday, NOTHING, s0, FineBoot("a"));
    var s1 := s0 + [FineBoot("a")];
    var f := Fleet(map["a" := WRITER], true, Some("a"), Idle);
    assert Run(NOTHING, s1) == f && Runs(f, "a");
    OneMore(Everyday, NOTHING, s1, FineBoot("b"));
    var s2 := s1 + [FineBoot("b")];
    var g := Fleet(map["a" := WRITER, "b" := READER], true, Some("a"), Idle);
    assert Run(NOTHING, s2) == g && Runs(g, "a");
    OneMore(Everyday, NOTHING, s2, FineBoot("c"));
    steps := s2 + [FineBoot("c")];
  }

  lemma EverydayIsPossible(steps: seq<Step>)
    requires Under(Everyday, NOTHING, steps, |steps|)
    ensures Under(Anything, NOTHING, steps, |steps|)
  {
    forall i | 0 <= i < |steps| ensures GoodStep(Anything, NOTHING, steps, i) {
      assert GoodStep(Everyday, NOTHING, steps, i);
    }
  }

  /** Two writers, reached: the old writer dies, and a node boots just before the target is recorded. */
  lemma BootBeforeRecordReached() returns (steps: seq<Step>)
    ensures Under(Anything, NOTHING, steps, |steps|) && GiveUp !in steps && (forall s :: s in steps ==> Written(s)) && !AtMostOneWriter(Run(NOTHING, steps))
  {
    hide Under, Run;
    var s3 := ThreeBoots();
    EverydayIsPossible(s3);
    OneMore(Anything, NOTHING, s3, Terminate("a"));
    var s4 := s3 + [Terminate("a")];
    OneMore(Anything, NOTHING, s4, FineStart("b", None));
    var s5 := s4 + [FineStart("b", None)];
    OneMore(Anything, NOTHING, s5, FineBoot("d"));
    var s6 := s5 + [FineBoot("d")];
    var f := Run(NOTHING, s6);
    assert Hot(f, "d");
    OneMore(Anything, NOTHING, s6, Record(true, true));
    OneMore(Anything, NOTHING, s6 + [Record(true, true)], Switch);
    steps := s6 + [Record(true, true)] + [Switch];
    assert Hot(Run(NOTHING, steps), "b") && Hot(Run(NOTHING, steps), "d");
  }

  /** And by a wait that runs out: the demoted node has not restarted when the script goes on. */
  lemma PromoteAfterTimeoutReached() returns (steps: seq<Step>)
    ensures Under(Anything, NOTHING, steps, |steps|) && (forall s :: s in steps ==> Written(s)) && !AtMostOneWriter(Run(NOTHING, steps))
    ensures forall i :: 3 <= i < |steps| ==> !steps[i].Boot?
  {
    hide Under, Run;
    var s3 := ThreeBoots();
    EverydayIsPossible(s3);
    assert TaggedWriter(Run(NOTHING, s3), "a");
    OneMore(Anything, NOTHING, s3, FineStart("b", Some("a")));
    var s4 := s3 + [FineStart("b", Some("a"))];
    OneMore(Anything, NOTHING, s4, GiveUp);
    OneMore(Anything, NOTHING, s4 + [GiveUp], Retag(true));
    var s6 := s4 + [GiveUp] + [Retag(true)];
    OneMore(Anything, NOTHING, s6, Record(true, true));
    OneMore(Anything, NOTHING, s6 + [Record(true, true)], Switch);
    steps := s6 + [Record(true, true)] + [Switch];
    var f := Run(NOTHING, steps);
    assert Hot(f, "a") && Hot(f, "b");
  }

  /** A promotion of b in which the writes r, m, t and n of retag, SSM and final tag and SSM may be lost. */
  lemma FirstPromotion(r: bool, m: bool, t: bool, n: bool) returns (steps: seq<Step>)
    ensures Under(Everyday, NOTHING, steps, |steps|)
    ensures Run(NOTHING, steps) == Fleet(
      map["a" := Machine(true, ReadOnly, ReadOnly, if r then ReaderTag else WriterTag),
          "b" := Machine(true, ReadWrite, ReadOnly, if t then WriterTag else ReaderTag), "c" := READER],
      true, Some(if m || n then "b" else "a"), Idle)
  {
    hide Under, Run;
    var s3 := ThreeBoots();
    var f := Run(NOTHING, s3);
    assert TaggedWriter(f, "a") && Runs(f, "a");
    OneMore(Everyday, NOTHING, s3, FineStart("b", Some("a")));
    var s4 := s3 + [FineStart("b", Some("a"))];
    OneMore(Everyday, NOTHING, s4, Restart("a"));
    var s5 := s4 + [Restart("a")];
    OneMore(Everyday, NOTHING, s5, SeeReadonly);
    var s6 := s5 + [SeeReadonly];
    var cold := Machine(true, ReadOnly, ReadOnly, WriterTag);
    assert Run(NOTHING, s6) == Fleet(map["a" := cold, "b" := READER, "c" := READER], true, Some("a"), Retagging("a", "b"));
    steps := PromotionEnds(s6, r, m, t, n);
  }

  lemma PromotionEnds(before: seq<Step>, r: bool, m: bool, t: bool, n: bool) returns (steps: seq<Step>)
    requires Under(Everyday, NOTHING, before, |before|)
    requires Run(NOTHING, before) == Fleet(
      map["a" := Machine(true, ReadOnly, ReadOnly, WriterTag), "b" := READER, "c" := READER], true, Some("a"), Retagging("a", "b"))
    ensures Under(Everyday, NOTHING, steps, |steps|)
    ensures Run(NOTHING, steps) == Fleet(
      map["a" := Machine(true, ReadOnly, ReadOnly, if r then ReaderTag else WriterTag),
          "b" := Machine(true, ReadWrite, ReadOnly, if t then WriterTag else ReaderTag), "c" := READER],
      true, Some(if m || n then "b" else "a"), Idle)
  {
    hide Under, Run;
    OneMore(Everyday, NOTHING, before, Retag(r));
    var s1 := before + [Retag(r)];
    OneMore(Everyday, NOTHING, s1, Record(true, m));
    var s2 := s1 + [Record(true, m)];
    OneMore(Everyday, NOTHING, s2, Switch);
    var s3 := s2 + [Switch];
    OneMore(Everyday, NOTHING, s3, Finish(t, n));
    steps := s3 + [Finish(t, n)];
  }

  /**
   Lost writes alone are enough: the retag of the old writer is lost, everything else goes
   through, every step keeps the everyday rules, and the next promotion demotes the wrong node.
   */
  lemma LostRetagReached() returns (steps: seq<Step>)
    ensures Under(Everyday, NOTHING, steps, |steps|) && !AtMostOneWriter(Run(NOTHING, steps))
  {
    hide Under, Run;
    var s1 := FirstPromotion(false, true, true, true);
    var f := Run(NOTHING, s1);
    assert TaggedWriter(f, "a") && Runs(f, "b");
    OneMore(Everyday, NOTHING, s1, FineStart("c", Some("a")));
    var s2 := s1 + [FineStart("c", Some("a"))];
    OneMore(Everyday, NOTHING, s2, SeeReadonly);
    OneMore(Everyday, NOTHING, s2 + [SeeReadonly], Retag(true));
    var s4 := s2 + [SeeReadonly] + [Retag(true)];
    OneMore(Everyday, NOTHING, s4, Record(true, true));
    OneMore(Everyday, NOTHING, s4 + [Record(true, true)], Switch);
    steps := s4 + [Record(true, true)] + [Switch];
    var g := Run(NOTHING, steps);
    assert Hot(g, "b") && Hot(g, "c");
  }

  /** Or the final tag and both SSM writes are lost: the recorded node dies, and a boot wins. */
  lemma LostRecordReached() returns (steps: seq<Step>)
    ensures Under(Everyday, NOTHING, steps, |steps|) && !AtMostOneWriter(Run(NOTHING, steps))
  {
    hide Under, Run;
    var s1 := FirstPromotion(true, false, false, false);
    OneMore(Everyday, NOTHING, s1, Terminate("a"));
    var s2 := s1 + [Terminate("a")];
    var f := Run(NOTHING, s2);
    assert forall n :: !TaggedWriter(f, n);
    OneMore(Everyday, NOTHING, s2, FineBoot("d"));
    steps := s2 + [FineBoot("d")];
    var g := Run(NOTHING, steps);
    assert Hot(g, "b") && Hot(g, "d");
  }

  // ---- the actors ---------------------------------------------------------

  /** One health poll of the wait: whether it was answered, and what happened before the next. */
  datatype Poll = Poll(answered: bool, meanwhile: seq<Step>)

  /** What can happen to the fleet without the script. */
  predicate IsOutside(s: Step) { s.Boot? || s.Terminate? || s.Restart? }

  /** These steps happen by themselves. */
  predicate AllOutside(happenings: seq<Step>) { forall i :: 0 <= i < |happenings| ==> IsOutside(happenings[i]) }

  /** This history can go on with these steps. */
  ghost predicate GoesOn(steps: seq<Step>, more: seq<Step>) { Under(Anything, NOTHING, steps + more, |steps + more|) }

  /** Then the first of them can happen, and the history can go on with the others after it. */
  lemma GoesOnStep(steps: seq<Step>, more: seq<Step>)
    requires GoesOn(steps, more) && more != []
    ensures Enabled(Run(NOTHING, steps), more[0]) && GoesOn(steps + [more[0]], more[1..])
  {
    hide Run, Enabled, Allows;
    assert GoodStep(Anything, NOTHING, steps + more, |steps|);
    assert (steps + more)[..|steps|] == steps && steps + more == steps + [more[0]] + more[1..];
  }

  lemma {:induction false} GoesOnPart(steps: seq<Step>, a: seq<Step>, b: seq<Step>)
    requires GoesOn(steps, a + b)
    ensures GoesOn(steps, a) && GoesOn(steps + a, b)
  {
    hide Run, Enabled, Allows;
    var (all, part) := (steps + (a + b), steps + a);
    assert all == part + b;
    forall i | 0 <= i < |part| ensures GoodStep(Anything, NOTHING, part, i) {
      assert GoodStep(Anything, NOTHING, all, i);
      assert part[..i] == all[..i];
    }
  }

  /** Everything that happens during the first n polls of a wait. */
  function Waited(polls: seq<Poll>, n: nat): seq<Step>
    requires n <= |polls|
  {
    if n == 0 then [] else Waited(polls, n - 1) + polls[n - 1].meanwhile
  }

  lemma WaitedNone(polls: seq<Poll>)
    ensures Waited(polls, 0) == []
  {
  }

  lemma OutsideParts(a: seq<Step>, b: seq<Step>)
    requires AllOutside(a + b)
    ensures AllOutside(a) && AllOutside(b)
  {
    hide IsOutside;
    forall i | 0 <= i < |a| ensures IsOutside(a[i]) {
      assert (a + b)[i] == a[i];
    }
    forall i | 0 <= i < |b| ensures IsOutside(b[i]) {
      assert (a + b)[|a| + i] == b[i];
    }
  }

  /** One poll more of a wait that can go on. */
  lemma WaitGoesOn(steps: seq<Step>, polls: seq<Poll>, i: nat)
    requires i < |polls| && AllOutside(Waited(polls, i + 1)) && GoesOn(steps, Waited(polls, i + 1))
    ensures AllOutside(Waited(polls, i)) && GoesOn(steps, Waited(polls, i))
    ensures AllOutside(polls[i].meanwhile) && GoesOn(steps + Waited(polls, i), polls[i].meanwhile)
    ensures steps + Waited(polls, i + 1) == steps + Waited(polls, i) + polls[i].meanwhile
  {
    hide GoesOn, AllOutside;
    OutsideParts(Waited(polls, i), polls[i].meanwhile);
    GoesOnPart(steps, Waited(polls, i), polls[i].meanwhile);
  }

  /** The health check of a node says "readonly". */
  predicate Reads(f: Fleet, id: string) { Runs(f, id) && f.machines[id].service == ReadOnly }

  /** What happens by itself between the script's steps. */
  datatype Between = Between(retag: seq<Step>, record: seq<Step>, switch: seq<Step>, finish: seq<Step>)

  /** Whether the promote request is served before the script makes its final writes, around them, or after. */
  datatype Served = InTime | HalfInTime | Late

  /** Whether the tag search is answered and which requests and writes of one promotion go through. */
  datatype Luck = Luck(searched: bool, demoted: bool, retagged: bool, served: Served, arrived: bool, recorded: bool, tagged: bool, named: bool)

  /** What is said to happen in between happens by itself. */
  predicate Planned(between: Between, polls: seq<Poll>, waited: nat)
    requires waited <= |polls|
  {
    AllOutside(Waited(polls, waited)) && AllOutside(between.retag)
  }

  predicate PlannedHalf(between: Between) { AllOutside(between.record) && AllOutside(between.switch) && AllOutside(between.finish) }

  /** What follows a demotion: the wait, its end and the retag, with what happens in between. */
  function WaitPlan(polls: seq<Poll>, between: Between, luck: Luck, seen: bool, waited: nat): seq<Step>
    requires waited <= |polls|
  {
    Waited(polls, waited) + [if seen then SeeReadonly else GiveUp] + between.retag + [Retag(luck.retagged)]
  }

  /** The steps of the demotion half. */
  function DemotePlan(target: string, found: Option<string>, polls: seq<Poll>, between: Between, luck: Luck, seen: bool, waited: nat): seq<Step>
    requires waited <= |polls|
  {
    [Start(target, found, luck.searched, luck.demoted)] +
    if found.None? || found.value == target then [] else WaitPlan(polls, between, luck, seen, waited)
  }

  /** And of the promotion half. */
  function PromotePlan(between: Between, luck: Luck): seq<Step> {
    between.record + (if luck.served.Late? then [] else [Record(luck.arrived, luck.recorded)]) +
    between.switch + (if luck.served.InTime? then [Switch] else []) +
    between.finish + [Finish(luck.tagged, luck.named)]
  }

  lemma WaitParts(steps: seq<Step>, polls: seq<Poll>, between: Between, luck: Luck, seen: bool, waited: nat)
    requires waited <= |polls| && GoesOn(steps, WaitPlan(polls, between, luck, seen, waited))
    ensures
      var s2 := steps + Waited(polls, waited) + [if seen then SeeReadonly else GiveUp];
      && GoesOn(steps, Waited(polls, waited)) && GoesOn(s2, between.retag)
      && steps + WaitPlan(polls, between, luck, seen, waited) == s2 + between.retag + [Retag(luck.retagged)]
  {
    hide GoesOn, Waited;
    var (b, c) := (Waited(polls, waited), [if seen then SeeReadonly else GiveUp]);
    var (d, e) := (between.retag, [Retag(luck.retagged)]);
    assert WaitPlan(polls, between, luck, seen, waited) == b + (c + (d + e));
    assert steps + (b + (c + (d + e))) == steps + b + c + d + e;
    GoesOnPart(steps, b, c + (d + e));
    GoesOnPart(steps + b, c, d + e);
    GoesOnPart(steps + b + c, d, e);
  }

  function With(steps: seq<Step>, taken: bool, s: Step): seq<Step> { if taken then steps + [s] else steps }

  lemma PromoteParts(steps: seq<Step>, between: Between, luck: Luck)
    requires GoesOn(steps, PromotePlan(between, luck))
    ensures
      var s2 := With(steps + between.record, !luck.served.Late?, Record(luck.arrived, luck.recorded));
      var s4 := With(s2 + between.switch, luck.served.InTime?, Switch);
      && GoesOn(steps, between.record) && GoesOn(s2, between.switch) && GoesOn(s4, between.finish)
      && steps + PromotePlan(between, luck) == s4 + between.finish + [Finish(luck.tagged, luck.named)]
  {
    hide GoesOn;
    var (a, b) := (between.record, if luck.served.Late? then [] else [Record(luck.arrived, luck.recorded)]);
    var (c, d) := (between.switch, if luck.served.InTime? then [Switch] else []);
    var (e, f) := (between.finish, [Finish(luck.tagged, luck.named)]);
    assert With(steps + a, !luck.served.Late?, Record(luck.arrived, luck.recorded)) == steps + a + b;
    assert With(steps + a + b + c, luck.served.InTime?, Switch) == steps + a + b + c + d;
    assert PromotePlan(between, luck) == a + (b + (c + (d + (e + f))));
    assert steps + (a + (b + (c + (d + (e + f))))) == steps + a + b + c + d + e + f;
    GoesOnPart(steps, a, b + (c + (d + (e + f))));
    GoesOnPart(steps + a, b, c + (d + (e + f)));
    GoesOnPart(steps + a + b, c, d + (e + f));
    GoesOnPart(steps + a + b + c, d, e + f);
    GoesOnPart(steps + a + b + c + d, e, f);
  }

  /** The script is over, with its promote request still to be served or not. */
  predicate ScriptOver(p: Phase, target: string) {
    p.Idle? || ((p.Ready? || p.Recording?) && p.ended && p.target == target)
  }

  /**
   The instances, SSM and the script's progress, changed in place step by step. `steps`
   is the history; `Valid` says that every step of it could happen and led here.
   */
  class Deployment {
    var machines: map<string, Machine>
    var authKey: bool
    var recorded: Option<string>
    var phase: Phase
    ghost var steps: seq<Step>

    function Now(): Fleet
      reads this
    {
      Fleet(machines, authKey, recorded, phase)
    }

    ghost predicate Valid()
      reads this
    {
      Under(Anything, NOTHING, steps, |steps|) && Now() == Run(NOTHING, steps)
    }

    constructor ()
      ensures Valid() && steps == [] && Now() == NOTHING
    {
      machines, authKey, recorded, phase := map[], false, None, Idle;
      steps := [];
    }

    /** At every moment of the history there is at most one writer, when operations kept to such rules so far. */
    lemma OneWriter(r: Rules, i: nat)
      requires Valid() && Suffices(r) && i <= |steps| && Under(r, NOTHING, steps, i)
      ensures AtMostOneWriter(Run(NOTHING, steps[..i]))
      ensures i == |steps| ==> AtMostOneWriter(Now())
    {
      hide Under, AtMostOneWriter, Run;
      assert steps[..|steps|] == steps;
      SingleUnder(r, steps, i);
    }

    /**
     UserData: elect, then write env file, tag, SSM and auth key. Only a node that wins the
     election can be hot afterwards; the next boot does not win if the auth key is stored.
     */
    method BootInstance(id: string, heard: Answers, saved: bool, keyed: bool) returns (become: bool)
      requires Valid() && Enabled(Now(), Boot(id, heard, saved, keyed))
      modifies this
      ensures Valid() && steps == old(steps) + [Boot(id, heard, saved, keyed)] && Now() == Apply(old(Now()), Boot(id, heard, saved, keyed))
      ensures become == Elects(old(Now()), heard)
      ensures forall n :: Hot(Now(), n) <==> Hot(old(Now()), n) || (n == id && become)
      ensures id in machines && (if become then Serves(Now(), id) && machines[id].env == ReadWrite else machines[id] == READER)
      ensures forall n :: n in old(machines) ==> n in machines && machines[n] == old(machines)[n]
      ensures become && saved ==> recorded == Some(id)
      ensures become ==> TaggedWriter(Now(), id) && (BecomesWriter(Now()) <==> !old(authKey) && !keyed)
    {
      hide Under, Run;
      OneMore(Anything, NOTHING, steps, Boot(id, heard, saved, keyed));
      become := Elect(Now(), heard);
      if become {
        machines := machines[id := WRITER];
        if saved { recorded := Some(id); }
        if keyed { authKey := true; }
      } else {
        machines := machines[id := READER];
      }
      steps := steps + [Boot(id, heard, saved, keyed)];
      assert forall n :: n != id ==> Hot(Now(), n) == Hot(old(Now()), n);
      assert id in machines;
    }

    /** Instances die for good. */
    method TerminateInstance(id: string)
      requires Valid() && Enabled(Now(), Terminate(id))
      modifies this`machines, this`steps
      ensures Valid() && steps == old(steps) + [Terminate(id)] && Now() == Apply(old(Now()), Terminate(id))
      ensures forall n :: Hot(Now(), n) <==> Hot(old(Now()), n) && n != id
    {
      hide Under, Run;
      OneMore(Anything, NOTHING, steps, Terminate(id));
      machines := machines[id := machines[id].(running := false)];
      steps := steps + [Terminate(id)];
    }

    /**
     The restart that follows both admin requests, or any other: the service takes over the
     env file's mode, which completes a promotion or a demotion; no one else is touched, and
     it never makes a writer of a node that was none.
     */
    method RestartService(id: string)
      requires Valid() && Enabled(Now(), Restart(id))
      modifies this`machines, this`steps
      ensures Valid() && steps == old(steps) + [Restart(id)] && Now() == Apply(old(Now()), Restart(id))
      ensures forall n :: Hot(Now(), n) ==> Hot(old(Now()), n)
      ensures old(machines[id].env) == ReadOnly ==> !Hot(Now(), id)
      ensures id in machines && machines[id] == old(machines[id]).(service := old(machines[id].env))
      ensures forall n :: Serves(Now(), n) <==> if n == id then old(machines[id].env) == ReadWrite else Serves(old(Now()), n)
      ensures forall n :: n in old(machines) && n != id ==> n in machines && machines[n] == old(machines)[n]
    {
      hide Under, Run;
      OneMore(Anything, NOTHING, steps, Restart(id));
      machines := machines[id := machines[id].(service := machines[id].env)];
      steps := steps + [Restart(id)];
    }

    /**
     The script's first step: find a running writer and send it a demotion. A demotion that
     arrives leaves the old writer one restart away from being a reader; no one becomes a writer.
     */
    method StartPromotion(target: string, found: Option<string>, answered: bool, delivered: bool)
      requires Valid() && Enabled(Now(), Start(target, found, answered, delivered))
      modifies this`machines, this`phase, this`steps
      ensures Valid() && steps == old(steps) + [Start(target, found, answered, delivered)]
      ensures Now() == Apply(old(Now()), Start(target, found, answered, delivered))
      ensures forall n :: Hot(Now(), n) ==> Hot(old(Now()), n)
      ensures phase.Demoting? && delivered ==> !Hot(Apply(Now(), Restart(phase.prev)), phase.prev)
      ensures phase == if found.Some? && found.value != target then Demoting(found.value, target) else Ready(target, false)
      ensures phase.Demoting? ==> phase.prev in machines
      ensures forall n :: n in old(machines) ==>
        && n in machines
        && machines[n] == if delivered && phase.Demoting? && n == phase.prev then old(machines)[n].(env := ReadOnly) else old(machines)[n]
    {
      hide Under, Run;
      OneMore(Anything, NOTHING, steps, Start(target, found, answered, delivered));
      if found.Some? && found.value != target {
        if delivered { machines := machines[found.value := machines[found.value].(env := ReadOnly)]; }
        phase := Demoting(found.value, target);
      } else {
        phase := Ready(target, false);
      }
      steps := steps + [Start(target, found, answered, delivered)];
    }

    /** Whatever happens by itself while the script waits; what cannot happen does not, and what can does. */
    method Meanwhile(happenings: seq<Step>)
      requires Valid()
      modifies this
      ensures Valid() && old(steps) <= steps && phase == old(phase)
      ensures forall i :: |old(steps)| <= i < |steps| ==> IsOutside(steps[i])
      ensures forall n :: n in old(machines) ==> n in machines && machines[n].env == old(machines)[n].env && machines[n].tag == old(machines)[n].tag
      ensures old(authKey) ==> authKey
      ensures AllOutside(happenings) && GoesOn(old(steps), happenings) ==> steps == old(steps) + happenings
    {
      hide Under, Run, Hot, AtMostOneWriter, TaggedWriter, BecomesWriter, Elects, Serves, GoesOn;
      ghost var planned := AllOutside(happenings) && GoesOn(old(steps), happenings);
      assert happenings[0..] == happenings && old(steps) + happenings[..0] == old(steps);
      for i := 0 to |happenings|
        invariant Valid() && old(steps) <= steps && phase == old(phase)
        invariant forall i :: |old(steps)| <= i < |steps| ==> IsOutside(steps[i])
        invariant forall n :: n in old(machines) ==> n in machines && machines[n].env == old(machines)[n].env && machines[n].tag == old(machines)[n].tag
        invariant old(authKey) ==> authKey
        invariant planned ==> steps == old(steps) + happenings[..i] && GoesOn(steps, happenings[i..])
      {
        var s := happenings[i];
        if planned { GoesOnStep(steps, happenings[i..]); }
        assert happenings[..i + 1] == happenings[..i] + [s] && happenings[i..][1..] == happenings[i + 1..];
        if IsOutside(s) && Enabled(Now(), s) { Happen(s); }
      }
      assert happenings[..|happenings|] == happenings;
    }

    method Happen(s: Step)
      requires Valid() && IsOutside(s) && Enabled(Now(), s)
      modifies this
      ensures Valid() && steps == old(steps) + [s] && phase == old(phase) && (old(authKey) ==> authKey)
      ensures forall n :: n in old(machines) ==> n in machines && machines[n].env == old(machines)[n].env && machines[n].tag == old(machines)[n].tag
    {
      hide Under, Run, Hot, AtMostOneWriter, TaggedWriter, BecomesWriter, Elects, Serves;
      match s
      case Boot(id, heard, saved, keyed) => var _ := BootInstance(id, heard, saved, keyed);
      case Terminate(id) => TerminateInstance(id);
      case Restart(id) => RestartService(id);
    }

    /**
     Poll the old writer's health until it says readonly, at most thirty times, while other
     things happen. The mode reported is the one its service runs in; so when the wait ends
     by an answer "readonly", the old writer is a running reader at that very moment; and when
     it runs out, it was none at any of the thirty polls that were answered. `looks` are the
     moments of the polls.
     */
    method AwaitReadonly(polls: seq<Poll>) returns (seen: bool, ghost looks: seq<nat>)
      requires Valid() && phase.Demoting?
      modifies this
      ensures Valid() && |old(steps)| < |steps| && old(steps) <= steps && phase == Retagging(old(phase).prev, old(phase).target)
      ensures forall i :: |old(steps)| <= i < |steps| - 1 ==> IsOutside(steps[i])
      ensures steps[|steps| - 1] == if seen then SeeReadonly else GiveUp
      ensures seen ==> var prev := old(phase).prev; Runs(Now(), prev) && machines[prev].service == ReadOnly
      ensures if seen then |looks| < |polls| && |looks| < 30 && polls[|looks|].answered else |looks| == if |polls| < 30 then |polls| else 30
      ensures |looks| <= |polls| && forall k :: 0 <= k < |looks| ==>
        |old(steps)| <= looks[k] < |steps| && !(polls[k].answered && Reads(Run(NOTHING, steps[..looks[k]]), old(phase).prev))
      ensures forall n :: n in old(machines) ==> n in machines && machines[n].env == old(machines)[n].env && machines[n].tag == old(machines)[n].tag
      ensures AllOutside(Waited(polls, |looks|)) && GoesOn(old(steps), Waited(polls, |looks|)) ==>
        steps == old(steps) + Waited(polls, |looks|) + [if seen then SeeReadonly else GiveUp]
    {
      hide Under, Run, GoesOn, Elects, IsOutside, AllOutside, Waited;
      WaitedNone(polls);
      seen, looks := false, [];
      var prev := phase.prev;
      var i := 0;
      while i < 30 && i < |polls|
        invariant 0 <= i <= 30 && i <= |polls| && |looks| == i
        invariant Valid() && old(steps) <= steps && phase == old(phase) && !seen
        invariant forall i :: |old(steps)| <= i < |steps| ==> IsOutside(steps[i])
        invariant forall k :: 0 <= k < |looks| ==>
          |old(steps)| <= looks[k] <= |steps| && !(polls[k].answered && Reads(Run(NOTHING, steps[..looks[k]]), prev))
        invariant forall n :: n in old(machines) ==> n in machines && machines[n].env == old(machines)[n].env && machines[n].tag == old(machines)[n].tag
        invariant AllOutside(Waited(polls, i)) && GoesOn(old(steps), Waited(polls, i)) ==> steps == old(steps) + Waited(polls, i)
      {
        if polls[i].answered && prev in machines && machines[prev].running && machines[prev].service == ReadOnly {
          seen := true;
          break;
        }
        ghost var before := steps;
        assert before[..|before|] == before;
        if AllOutside(Waited(polls, i + 1)) && GoesOn(old(steps), Waited(polls, i + 1)) {
          WaitGoesOn(old(steps), polls, i);
        }
        Meanwhile(polls[i].meanwhile);
        assert forall k :: 0 <= k <= |before| ==> steps[..k] == before[..k];
        looks := looks + [|before|];
        i := i + 1;
      }
      ghost var before := steps;
      OneMore(Anything, NOTHING, steps, if seen then SeeReadonly else GiveUp);
      phase := Retagging(phase.prev, phase.target);
      steps := steps + [if seen then SeeReadonly else GiveUp];
      assert forall k :: 0 <= k <= |before| ==> steps[..k] == before[..k];
    }

    /**
     Retag the demoted node as a reader. The next tag search can find it, and a boot can take
     it for the writer, exactly if the write was lost and it still runs with its old tag.
     */
    method RetagOld(written: bool)
      requires Valid() && phase.Retagging?
      modifies this`machines, this`phase, this`steps
      ensures Valid() && steps == old(steps) + [Retag(written)] && Now() == Apply(old(Now()), Retag(written))
      ensures phase == Ready(old(phase).target, false)
      ensures forall n :: TaggedWriter(Now(), n) <==> TaggedWriter(old(Now()), n) && !(written && n == old(phase).prev)
      ensures forall n :: n in old(machines) ==> n in machines
      ensures old(phase).prev in old(machines) && written ==> machines[old(phase).prev].tag == ReaderTag
      ensures forall n :: Hot(Now(), n) == Hot(old(Now()), n)
    {
      hide Under, Run;
      OneMore(Anything, NOTHING, steps, Retag(written));
      if written && phase.prev in machines { machines := machines[phase.prev := machines[phase.prev].(tag := ReaderTag)]; }
      phase := Ready(phase.target, false);
      steps := steps + [Retag(written)];
    }

    /**
     /admin/promote, first half: name itself in SSM before anything else. If the request
     arrives and the write goes through, no boot wins the election from here on while the
     target runs, though nothing about the modes has changed; otherwise nothing has. The
     request may be served after the script has ended.
     */
    method RecordTarget(arrives: bool, saved: bool)
      requires Valid() && phase.Ready?
      modifies this`recorded, this`phase, this`steps
      ensures Valid() && steps == old(steps) + [Record(arrives, saved)] && Now() == Apply(old(Now()), Record(arrives, saved))
      ensures phase == Recording(old(phase).target, arrives && Runs(old(Now()), old(phase).target), old(phase).ended)
      ensures phase.arrived && saved ==> recorded == Some(phase.target)
      ensures phase.arrived && saved && authKey ==> !BecomesWriter(Now())
      ensures !(phase.arrived && saved) ==> BecomesWriter(Now()) == BecomesWriter(old(Now()))
      ensures forall n :: Hot(Now(), n) == Hot(old(Now()), n)
    {
      hide Under, Run;
      OneMore(Anything, NOTHING, steps, Record(arrives, saved));
      var arrived := arrives && phase.target in machines && machines[phase.target].running;
      if arrived && saved { recorded := Some(phase.target); }
      phase := Recording(phase.target, arrived, phase.ended);
      steps := steps + [Record(arrives, saved)];
      assert SomeTaggedWriter(Now()) == SomeTaggedWriter(old(Now()));
    }

    /** /admin/promote, second half: switch the env file. Exactly the target becomes a writer by it, if it has the request and runs. */
    method SwitchTarget()
      requires Valid() && phase.Recording?
      modifies this`machines, this`phase, this`steps
      ensures Valid() && steps == old(steps) + [Switch] && Now() == Apply(old(Now()), Switch)
      ensures phase == if old(phase).ended then Idle else Switched(old(phase).target)
      ensures forall n :: Hot(Now(), n) <==> Hot(old(Now()), n) || (old(phase).arrived && n == old(phase).target && Runs(Now(), n))
      ensures old(phase).arrived && Runs(Now(), old(phase).target) ==> machines[old(phase).target].env == ReadWrite
      ensures forall n :: Serves(Now(), n) == Serves(old(Now()), n)
      ensures forall n :: n in old(machines) ==> n in machines && machines[n].tag == old(machines)[n].tag
    {
      hide Under, Run;
      OneMore(Anything, NOTHING, steps, Switch);
      if phase.arrived && phase.target in machines && machines[phase.target].running {
        machines := machines[phase.target := machines[phase.target].(env := ReadWrite)];
      }
      phase := if phase.ended then Idle else Switched(phase.target);
      steps := steps + [Switch];
    }

    /**
     The script's last step: SSM and tags for the new writer; if either write goes through,
     no boot wins while it runs. The promote request may still be under way. If the target is
     or may become a writer, SSM or the tags name it afterwards exactly if the promotion was
     one that ends with its target named.
     */
    method FinishPromotion(tagged: bool, saved: bool)
      requires Valid() && Waits(phase)
      modifies this`machines, this`recorded, this`phase, this`steps
      ensures Valid() && steps == old(steps) + [Finish(tagged, saved)] && Now() == Apply(old(Now()), Finish(tagged, saved))
      ensures phase == (if Runs(Now(), old(phase).target) then Ended(old(phase)) else Idle) && ScriptOver(phase, old(phase).target)
      ensures recorded == if saved then Some(old(phase).target) else old(recorded)
      ensures Runs(Now(), old(phase).target) && !old(phase).Switched? ==> phase == old(phase).(ended := true)
      ensures forall n :: n in old(machines) && n != old(phase).target ==> n in machines && machines[n].tag == old(machines)[n].tag
      ensures var target := old(phase).target;
        Runs(Now(), target) ==> (tagged ==> TaggedWriter(Now(), target)) && (authKey && (tagged || saved) ==> !BecomesWriter(Now()))
      ensures forall n :: Hot(Now(), n) == Hot(old(Now()), n)
      ensures (MayWrite(old(Now())) ==> Named(Now(), old(phase).target)) <==> EndsKnown(old(Now()), tagged, saved)
      ensures old(phase).Switched? && HotOnly(old(Now()), old(phase).target) ==>
        (Known(Now()) <==> EndsKnown(old(Now()), tagged, saved))
    {
      hide Under, Run, EndsKnown, MayWrite, Named, Known, HotOnly;
      OneMore(Anything, NOTHING, steps, Finish(tagged, saved));
      FinishLeaves(Now(), tagged, saved);
      if phase.Switched? { KnownAfter(Now(), tagged, saved); }
      if saved { recorded := Some(phase.target); }
      if tagged && phase.target in machines { machines := machines[phase.target := machines[phase.target].(tag := WriterTag)]; }
      phase := if phase.target in machines && machines[phase.target].running then Ended(phase) else Idle;
      steps := steps + [Finish(tagged, saved)];
    }

    /** After a demotion was sent: wait for it and retag the demoted node, while other things happen. */
    method SettleDemotion(polls: seq<Poll>, between: Between, luck: Luck) returns (seen: bool, ghost waited: nat)
      requires Valid() && phase.Demoting?
      modifies this
      ensures Valid() && old(steps) <= steps && phase == Ready(old(phase).target, false)
      ensures old(phase).prev in old(machines) && luck.retagged ==>
        old(phase).prev in machines && machines[old(phase).prev].tag == ReaderTag
      ensures waited <= |polls| && (seen ==> waited < |polls| && polls[waited].answered)
      ensures Planned(between, polls, waited) && GoesOn(old(steps), WaitPlan(polls, between, luck, seen, waited))
        ==> steps == old(steps) + WaitPlan(polls, between, luck, seen, waited)
    {
      hide Under, Run, Hot, BecomesWriter, Apply, Enabled, TaggedWriter, Runs, Elects, GoesOn, AllOutside, IsOutside, Serves, Waited, WaitPlan;
      ghost var s0 := steps;
      ghost var looks;
      seen, looks := AwaitReadonly(polls);
      waited := |looks|;
      if Planned(between, polls, waited) && GoesOn(s0, WaitPlan(polls, between, luck, seen, waited)) {
        WaitParts(s0, polls, between, luck, seen, waited);
      }
      Meanwhile(between.retag);
      RetagOld(luck.retagged);
    }

    /** The script's demotion half: afterwards the old writer, if there was one, is tagged as a reader unless the write was lost. */
    method DemoteOld(target: string, found: Option<string>, polls: seq<Poll>, between: Between, luck: Luck) returns (seen: bool, ghost waited: nat)
      requires Valid() && Enabled(Now(), Start(target, found, luck.searched, luck.demoted))
      modifies this
      ensures Valid() && old(steps) <= steps && phase == Ready(target, false)
      ensures found.Some? && found.value != target && luck.retagged ==> found.value in machines && machines[found.value].tag == ReaderTag
      ensures seen ==> found.Some? && found.value != target && waited < |polls| && polls[waited].answered
      ensures waited <= |polls| && (Planned(between, polls, waited) && GoesOn(old(steps), DemotePlan(target, found, polls, between, luck, seen, waited))
        ==> steps == old(steps) + DemotePlan(target, found, polls, between, luck, seen, waited))
    {
      hide Under, Run, Hot, BecomesWriter, Apply, Enabled, TaggedWriter, Runs, Elects, GoesOn, Planned, Serves, Waited, WaitPlan;
      seen, waited := false, 0;
      ghost var s0, first := steps, [Start(target, found, luck.searched, luck.demoted)];
      StartPromotion(target, found, luck.searched, luck.demoted);
      assert s0 + (first + []) == s0 + first;
      if phase.Demoting? {
        seen, waited := SettleDemotion(polls, between, luck);
        ghost var rest := WaitPlan(polls, between, luck, seen, waited);
        assert s0 + (first + rest) == s0 + first + rest;
        if GoesOn(s0, first + rest) { GoesOnPart(s0, first, rest); }
      }
    }

    /** The script's promotion half, with anything happening between its steps and the request served early or late. */
    method PromoteTarget(between: Between, luck: Luck)
      requires Valid() && phase.Ready? && !phase.ended
      modifies this
      ensures Valid() && old(steps) <= steps && ScriptOver(phase, old(phase).target)
      ensures luck.served.InTime? ==> phase == Idle
      ensures luck.named ==> recorded == Some(old(phase).target)
      ensures Runs(Now(), old(phase).target) && luck.tagged ==> TaggedWriter(Now(), old(phase).target)
      ensures Runs(Now(), old(phase).target) && authKey && (luck.tagged || luck.named) ==> !BecomesWriter(Now())
      ensures forall n :: n in old(machines) && n != old(phase).target ==> n in machines && machines[n].tag == old(machines)[n].tag
      ensures PlannedHalf(between) && GoesOn(old(steps), PromotePlan(between, luck)) ==> steps == old(steps) + PromotePlan(between, luck)
    {
      hide Under, Run, Hot, BecomesWriter, Apply, Enabled, TaggedWriter, Runs, Known, HotOnly, EndsKnown, MayWrite, Named, Elects, GoesOn, AllOutside, IsOutside, Serves, PromotePlan;
      if PlannedHalf(between) && GoesOn(steps, PromotePlan(between, luck)) { PromoteParts(steps, between, luck); }
      Meanwhile(between.record);
      if !luck.served.Late? { RecordTarget(luck.arrived, luck.recorded); }
      Meanwhile(between.switch);
      if luck.served.InTime? { SwitchTarget(); }
      Meanwhile(between.finish);
      FinishPromotion(luck.tagged, luck.named);
    }

    /** What a promote request that comes late still does after the script's end. */
    method ServeLateRequest(before: seq<Step>, arrives: bool, saved: bool, beforeSwitch: seq<Step>)
      requires Valid() && (phase.Ready? || phase.Recording?) && phase.ended
      modifies this
      ensures Valid() && old(steps) <= steps && phase == Idle
      ensures forall n :: n in old(machines) ==> n in machines && machines[n].tag == old(machines)[n].tag
      ensures forall r :: Suffices(r) && Under(r, NOTHING, steps, |steps|) ==> AtMostOneWriter(Now())
      ensures
        && var first := if old(phase).Ready? then before + [Record(arrives, saved)] else [];
        && (AllOutside(before) && AllOutside(beforeSwitch) && GoesOn(old(steps), first + beforeSwitch + [Switch])
          ==> steps == old(steps) + (first + beforeSwitch + [Switch]))
    {
      hide Under, Run, Hot, BecomesWriter, AtMostOneWriter, Apply, Enabled, TaggedWriter, Runs, Suffices, Elects, GoesOn, AllOutside, IsOutside, Serves;
      ghost var first := if phase.Ready? then before + [Record(arrives, saved)] else [];
      assert steps + (first + beforeSwitch + [Switch]) == steps + first + beforeSwitch + [Switch];
      assert steps + first == if phase.Ready? then steps + before + [Record(arrives, saved)] else steps;
      if GoesOn(steps, first + beforeSwitch + [Switch]) {
        GoesOnPart(steps, first + beforeSwitch, [Switch]);
        GoesOnPart(steps, first, beforeSwitch);
        if phase.Ready? { GoesOnPart(steps, before, [Record(arrives, saved)]); }
      }
      if phase.Ready? {
        Meanwhile(before);
        RecordTarget(arrives, saved);
      }
      Meanwhile(beforeSwitch);
      SwitchTarget();
      forall r | Suffices(r) && Under(r, NOTHING, steps, |steps|) ensures AtMostOneWriter(Now()) {
        OneWriter(r, |steps|);
      }
    }

    /**
     The whole script, with anything happening between its steps and any of its requests and
     writes lost: its steps in their order, and everything that can happen in between. Whatever
     went through has its effect at the end: the target is recorded, is the tagged writer, keeps
     boots from winning, and the demoted node carries no writer tag; and if operations kept to
     rules that suffice there is at most one writer.
     */
    method PromoteReader(target: string, found: Option<string>, polls: seq<Poll>, between: Between, luck: Luck) returns (seen: bool, ghost waited: nat)
      requires Valid() && Enabled(Now(), Start(target, found, luck.searched, luck.demoted))
      modifies this
      ensures Valid() && old(steps) <= steps && ScriptOver(phase, target)
      ensures luck.served.InTime? ==> phase == Idle
      ensures luck.named ==> recorded == Some(target)
      ensures Runs(Now(), target) && luck.tagged ==> TaggedWriter(Now(), target)
      ensures Runs(Now(), target) && authKey && (luck.tagged || luck.named) ==> !BecomesWriter(Now())
      ensures found.Some? && found.value != target && luck.retagged ==> !TaggedWriter(Now(), found.value)
      ensures forall r :: Suffices(r) && Under(r, NOTHING, steps, |steps|) ==> AtMostOneWriter(Now())
      ensures seen ==> found.Some? && found.value != target && waited < |polls| && polls[waited].answered
      ensures waited <= |polls| &&
        var plan := DemotePlan(target, found, polls, between, luck, seen, waited) + PromotePlan(between, luck);
        Planned(between, polls, waited) && PlannedHalf(between) && GoesOn(old(steps), plan) ==> steps == old(steps) + plan
    {
      hide Under, Run, Hot, BecomesWriter, AtMostOneWriter, Apply, Enabled, Suffices, Elects, GoesOn, AllOutside, IsOutside, Serves, DemotePlan, PromotePlan;
      ghost var s0 := steps;
      seen, waited := DemoteOld(target, found, polls, between, luck);
      ghost var first, second := DemotePlan(target, found, polls, between, luck, seen, waited), PromotePlan(between, luck);
      if GoesOn(s0, first + second) { GoesOnPart(s0, first, second); }
      PromoteTarget(between, luck);
      forall r | Suffices(r) && Under(r, NOTHING, steps, |steps|) ensures AtMostOneWriter(Now()) {
        OneWriter(r, |steps|);
      }
    }
  }
}
