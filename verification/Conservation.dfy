/** Byte conservation over every interleaving of managers that share one pool directory. */
module Conservation {
  import opened Basics
  import opened Header
  import opened SlotNames
  import opened Pool

  ghost function FileSizes(dir: Dir): map<string, nat> {
    map name | name in dir :: Size(Some(dir[name]))
  }

  /** Bytes held by the files of a directory. */
  ghost function Bytes(dir: Dir): nat {
    SumMap(FileSizes(dir))
  }

  lemma BytesWithout(dir: Dir, name: string)
    requires name in dir
    ensures Bytes(dir) == Size(Some(dir[name])) + Bytes(dir - {name})
  {
    SumMapWithout(FileSizes(dir), name);
    assert FileSizes(dir) - {name} == FileSizes(dir - {name});
  }

  lemma BytesAfterPut(dir: Dir, name: string, node: Option<Node>)
    ensures Bytes(Put(dir, name, node)) + Size(Lookup(dir, name)) == Bytes(dir) + Size(node)
  {
    var after := Put(dir, name, node);
    if name in dir {
      BytesWithout(dir, name);
    } else {
      assert dir - {name} == dir;
    }
    if node.Some? {
      BytesWithout(after, name);
      assert after - {name} == dir - {name};
    }
  }

  // ---------- one call ----------

  /** The orphans a pruning call removes. */
  function PrunedFiles(dir: Dir, count: nat, unlink: string -> bool): Dir {
    map name | name in dir && IsOrphan(name, dir[name], count) && unlink(name) :: dir[name]
  }

  lemma {:induction false} BytesOfUnion(a: Dir, b: Dir)
    requires a.Keys !! b.Keys
    ensures Bytes(a + b) == Bytes(a) + Bytes(b)
    decreases |a|
  {
    if a == map[] {
      assert a + b == b;
    } else {
      var name :| name in a;
      UnionWithout(a, b, name);
      BytesOfUnion(a - {name}, b);
      BytesWithout(a, name);
      BytesWithout(a + b, name);
    }
  }

  lemma UnionWithout(a: Dir, b: Dir, name: string)
    requires name in a && name !in b
    ensures (a + b) - {name} == (a - {name}) + b && (a + b)[name] == a[name]
  {
  }

  lemma PruneConserves(dir: Dir, count: nat, unlink: string -> bool)
    ensures Bytes(Prune(dir, count, unlink)) + Bytes(PrunedFiles(dir, count, unlink)) == Bytes(dir)
  {
    var kept, gone := Prune(dir, count, unlink), PrunedFiles(dir, count, unlink);
    assert kept + gone == dir;
    BytesOfUnion(kept, gone);
  }

  /** A visit that creates a file, or leaves the slot other than it found it. */
  predicate Replaces(found: Option<Node>, v: Visit) {
    v.outcome.Created? || v.node != found
  }

  /** Bytes of an invalid file that one visit deleted or wrote over. */
  function VisitRepaired(found: Option<Node>, v: Visit): nat {
    if Replaces(found, v) then Size(found) else 0
  }

  /** Bytes that a failed creation put into the slot and did not clean up. */
  function VisitResidue(found: Option<Node>, v: Visit): nat {
    if v.node != found && !v.outcome.Created? then Size(v.node) else 0
  }

  /** Residue comes only from a creation that was begun and failed; a slot that was neither cleared
      nor written to is booked nowhere. */
  lemma OnlyFailedCreationsLeaveResidue(job: Job, index: u32, found: Option<Node>, free: int)
    ensures var v := VisitSlot(job, index, found, free);
            && (VisitResidue(found, v) > 0 ==>
                 v.node == job.fate(index).left && (CreateFile(job, index).NoSpace? || CreateFile(job, index).Broke?))
            && (VisitRepaired(found, v) > 0 ==>
                 && !Intact(job.codec, found, index, job.config.size)
                 && (job.fate(index).unlink || CreateFile(job, index).Written? || v.node == job.fate(index).left))
  {
  }

  /** One visit: what was found, created and left over balances what is there and what was repaired. */
  lemma VisitBalances(job: Job, index: u32, found: Option<Node>, free: int)
    ensures var v := VisitSlot(job, index, found, free);
            Size(v.node) + VisitRepaired(found, v)
            == Size(found) + (if v.outcome.Created? then job.config.size else 0) + VisitResidue(found, v)
  {
  }

  /** Bytes of invalid files that the rest of a pass deletes or writes over. */
  function Repaired(job: Job, single: bool, s: Fill): nat
    decreases job.config.count + 1 - s.next
  {
    if s.next > job.config.count then 0
    else
      var v := Visiting(job, s);
      VisitRepaired(At(s.dir, s.next), v)
      + if Halts(single, v.outcome) then 0 else Repaired(job, single, Advance(job, s))
  }

  /** Bytes that failed creations leave behind in the rest of a pass. */
  function Residue(job: Job, single: bool, s: Fill): nat
    decreases job.config.count + 1 - s.next
  {
    if s.next > job.config.count then 0
    else
      var v := Visiting(job, s);
      VisitResidue(At(s.dir, s.next), v) + if Halts(single, v.outcome) then 0 else Residue(job, single, Advance(job, s))
  }

  lemma {:induction false} FillConserves(job: Job, single: bool, s: Fill)
    requires 1 <= s.next <= job.config.count + 1
    ensures var r := FillFrom(job, single, s);
            && s.report.bytes <= r.report.bytes
            && Bytes(r.dir) + Repaired(job, single, s)
               == Bytes(s.dir) + (r.report.bytes - s.report.bytes) + Residue(job, single, s)
    decreases job.config.count + 1 - s.next
  {
    if s.next <= job.config.count {
      BytesAfterPut(s.dir, SlotName(s.next), Visiting(job, s).node);
      VisitBalances(job, s.next, At(s.dir, s.next), s.free);
      if !Halts(single, Visiting(job, s).outcome) {
        FillConserves(job, single, Advance(job, s));
      }
    }
  }

  /** A whole pass that created nothing and left the directory as it was has nothing booked: a file that
      can be neither removed nor replaced does not enter the ledger, however often it is visited. */
  lemma IdlePassBooksNothing(job: Job, single: bool, dir: Dir, free: int)
    requires Pass(job, single, dir, free).dir == dir && Pass(job, single, dir, free).report.created == 0
    ensures PrunedFiles(dir, job.config.count, job.orphanUnlink) == map[]
    ensures Repaired(job, single, Start(job, dir, free)) == 0 && Residue(job, single, Start(job, dir, free)) == 0
  {
    var s := Start(job, dir, free);
    PassIsLocal(job, single, s);
    forall name | name in dir
      ensures !(IsOrphan(name, dir[name], job.config.count) && job.orphanUnlink(name))
    {
      if i: u32 :| 1 <= i < FillFrom(job, single, s).next && name == SlotName(i) {
        ClaimedIndexOfSlotName(i);
      } else {
        assert Lookup(dir, name) == Lookup(s.dir, name);
      }
    }
    assert s.dir == dir;
    IdleFillBooksNothing(job, single, s);
  }

  lemma {:induction false} IdleFillBooksNothing(job: Job, single: bool, s: Fill)
    requires 1 <= s.next <= job.config.count + 1
    requires FillFrom(job, single, s).dir == s.dir && FillFrom(job, single, s).report.created == s.report.created
    ensures Repaired(job, single, s) == 0 && Residue(job, single, s) == 0
    decreases job.config.count + 1 - s.next
  {
    if s.next <= job.config.count {
      var v := Visiting(job, s);
      CreatedGrows(job, single, s);
      PassIsLocal(job, single, s);
      assert StateAt(job, single, s, s.next) == s;
      assert v.node == At(s.dir, s.next);
      if !Halts(single, v.outcome) {
        assert Advance(job, s).dir == s.dir;
        IdleFillBooksNothing(job, single, Advance(job, s));
      }
    }
  }

  lemma {:induction false} CreatedGrows(job: Job, single: bool, s: Fill)
    requires 1 <= s.next <= job.config.count + 1
    ensures s.report.created <= FillFrom(job, single, s).report.created
    ensures s.next <= job.config.count && Visiting(job, s).outcome.Created? ==>
      s.report.created < FillFrom(job, single, s).report.created
    decreases job.config.count + 1 - s.next
  {
    if s.next <= job.config.count && !Halts(single, Visiting(job, s).outcome) {
      CreatedGrows(job, single, Advance(job, s));
    }
  }

  /** When failed creations clean up after themselves there is no residue. */
  lemma {:induction false} CleanPassLeavesNoResidue(job: Job, single: bool, s: Fill)
    requires 1 <= s.next <= job.config.count + 1 && forall i: u32 :: job.fate(i).left == None
    ensures Residue(job, single, s) == 0
    decreases job.config.count + 1 - s.next
  {
    if s.next <= job.config.count {
      assert job.fate(s.next).left == None;
      if !Halts(single, Visiting(job, s).outcome) {
        CleanPassLeavesNoResidue(job, single, Advance(job, s));
      }
    }
  }

  lemma {:induction false} ReleaseConserves(dir: Dir, indices: seq<nat>, unlink: nat -> bool, report: ReleaseReport)
    ensures var (after, r) := ReleaseAll(dir, indices, unlink, report);
            report.freed <= r.freed && Bytes(after) + (r.freed - report.freed) == Bytes(dir)
    decreases |indices|
  {
    if indices != [] {
      var (d, r) := ReleaseOne(dir, indices[0], unlink(indices[0]), report);
      BytesAfterPut(dir, SlotName(indices[0]), None);
      ReleaseConserves(d, indices[1..], unlink, r);
    }
  }

  // ---------- runs ----------

  /** A manager as another process sees it: settings, and an inventory that may be stale. */
  datatype Actor = Actor(codec: Codec, config: Config, skipFallocate: bool, inventory: seq<BallastFile>)

  datatype World = World(dir: Dir, actors: seq<Actor>)

  datatype Call =
    | FillSlots(single: bool, checked: bool, fate: nat -> Fate, orphanUnlink: string -> bool,
                orphanGain: nat, free: int)
    | ReleaseFiles(count: nat, unlink: nat -> bool)
    | UpdateConfig(config: Config, orphanUnlink: string -> bool)

  /** A whole call, or one part of those that take no lock: opening a pool is joining, removing orphans
      one by one and taking inventory; changing the configuration is setting it and then the same. Other
      managers' calls may come in between. */
  datatype Event =
    | Open(codec: Codec, config: Config, orphanUnlink: string -> bool)
    | By(who: nat, call: Call)
    | Join(codec: Codec, config: Config)
    | SetConfig(who: nat, config: Config)
    | RemoveOrphan(who: nat, name: string, unlink: bool)
    | TakeInventory(who: nat)

  function JobOf(actor: Actor, call: Call): Job
    requires call.FillSlots?
  {
    Job(actor.codec, actor.config, actor.skipFallocate, call.checked, call.fate, call.orphanUnlink, call.orphanGain)
  }

  /** The directory and the configuration after one call by `actor`. */
  function Act(dir: Dir, actor: Actor, call: Call): (Dir, Config) {
    match call
    case FillSlots(single, _, _, _, _, free) => (Pass(JobOf(actor, call), single, dir, free).dir, actor.config)
    case ReleaseFiles(count, unlink) => (Release(dir, actor.inventory, count, unlink).0, actor.config)
    case UpdateConfig(config, orphanUnlink) => (Prune(dir, config.count, orphanUnlink), config)
  }

  /** The directory after the attempt to remove one orphan. */
  function WithoutOrphan(dir: Dir, name: string, count: nat, unlink: bool): Dir {
    if name in dir && IsOrphan(name, dir[name], count) && unlink then dir - {name} else dir
  }

  /** One event. After a whole call the manager takes inventory; an event of nobody changes nothing. */
  function Step(w: World, ev: Event): World {
    match ev
    case Open(codec, config, orphanUnlink) =>
      var dir := Prune(w.dir, config.count, orphanUnlink);
      World(dir, w.actors + [Actor(codec, config, false, Scan(codec, dir, config))])
    case By(who, call) =>
      if who >= |w.actors| then w
      else
        var actor := w.actors[who];
        var (dir, config) := Act(w.dir, actor, call);
        World(dir, w.actors[who := actor.(config := config, inventory := Scan(actor.codec, dir, config))])
    case Join(codec, config) => w.(actors := w.actors + [Actor(codec, config, false, [])])
    case SetConfig(who, config) =>
      if who >= |w.actors| then w else w.(actors := w.actors[who := w.actors[who].(config := config)])
    case RemoveOrphan(who, name, unlink) =>
      if who >= |w.actors| then w else w.(dir := WithoutOrphan(w.dir, name, w.actors[who].config.count, unlink))
    case TakeInventory(who) =>
      if who >= |w.actors| then w
      else
        var actor := w.actors[who];
        w.(actors := w.actors[who := actor.(inventory := Scan(actor.codec, w.dir, actor.config))])
  }

  /** What the calls reported (`created`, `freed`) and what else entered or left the disk. */
  datatype Ledger = Ledger(created: nat, residue: nat, freed: nat, pruned: nat, repaired: nat)

  const BLANK: Ledger := Ledger(0, 0, 0, 0, 0)

  ghost function FlowOfCall(dir: Dir, actor: Actor, call: Call): Ledger {
    match call
    case FillSlots(single, _, _, orphanUnlink, _, free) =>
      var job := JobOf(actor, call);
      var r := Pass(job, single, dir, free);
      var s := Start(job, dir, free);
      Ledger(r.report.bytes, Residue(job, single, s), 0,
             Bytes(PrunedFiles(dir, job.config.count, orphanUnlink)), Repaired(job, single, s))
    case ReleaseFiles(count, unlink) =>
      BLANK.(freed := Release(dir, actor.inventory, count, unlink).1.freed)
    case UpdateConfig(config, orphanUnlink) =>
      BLANK.(pruned := Bytes(PrunedFiles(dir, config.count, orphanUnlink)))
  }

  ghost function Flow(w: World, ev: Event): Ledger {
    match ev
    case Open(_, config, orphanUnlink) =>
      BLANK.(pruned := Bytes(PrunedFiles(w.dir, config.count, orphanUnlink)))
    case By(who, call) =>
      if who >= |w.actors| then BLANK else FlowOfCall(w.dir, w.actors[who], call)
    case RemoveOrphan(who, name, unlink) =>
      if Step(w, ev).dir == w.dir then BLANK else BLANK.(pruned := Size(Lookup(w.dir, name)))
    case _ => BLANK
  }

  // ---------- the parts of an unlocked call ----------

  lemma {:induction false} RunConcat(w: World, a: seq<Event>, b: seq<Event>)
    ensures Run(w, a + b) == Run(Run(w, a), b)
    decreases |a|
  {
    if a == [] {
      assert a + b == b;
    } else {
      assert (a + b)[1..] == a[1..] + b;
      RunConcat(Step(w, a[0]), a[1..], b);
    }
  }

  function Removals(who: nat, names: seq<string>, unlink: string -> bool): seq<Event> {
    seq(|names|, k requires 0 <= k < |names| => RemoveOrphan(who, names[k], unlink(names[k])))
  }

  /** Removing the orphans among `names`, one by one and in any order. */
  function PruneNamed(dir: Dir, count: nat, unlink: string -> bool, names: seq<string>): Dir {
    map name | name in dir && !(name in names && IsOrphan(name, dir[name], count) && unlink(name)) :: dir[name]
  }

  lemma {:induction false} RemovalsPrune(w: World, who: nat, names: seq<string>, unlink: string -> bool)
    requires who < |w.actors|
    ensures Run(w, Removals(who, names, unlink))
            == w.(dir := PruneNamed(w.dir, w.actors[who].config.count, unlink, names))
    decreases |names|
  {
    var count := w.actors[who].config.count;
    if names == [] {
      assert PruneNamed(w.dir, count, unlink, names) == w.dir;
    } else {
      var events := Removals(who, names, unlink);
      var next := Step(w, events[0]);
      assert events[1..] == Removals(who, names[1..], unlink);
      RemovalsPrune(next, who, names[1..], unlink);
      PruneOneMore(w.dir, count, unlink, names);
    }
  }

  lemma PruneOneMore(dir: Dir, count: nat, unlink: string -> bool, names: seq<string>)
    requires names != []
    ensures PruneNamed(WithoutOrphan(dir, names[0], count, unlink(names[0])), count, unlink, names[1..])
            == PruneNamed(dir, count, unlink, names)
  {
    assert forall name :: name in names <==> name == names[0] || name in names[1..];
  }

  lemma PruneNamedAll(dir: Dir, count: nat, unlink: string -> bool, names: seq<string>)
    requires forall name :: name in dir ==> name in names
    ensures PruneNamed(dir, count, unlink, names) == Prune(dir, count, unlink)
  {
  }

  /** With nothing in between, the parts of a configuration change make up the whole. */
  lemma SplitUpdateIsUpdate(w: World, who: nat, config: Config, unlink: string -> bool, names: seq<string>)
    requires who < |w.actors| && forall name :: name in w.dir ==> name in names
    ensures Run(w, [SetConfig(who, config)] + Removals(who, names, unlink) + [TakeInventory(who)])
            == Step(w, By(who, UpdateConfig(config, unlink)))
  {
    var configured := Step(w, SetConfig(who, config));
    var dir := Prune(w.dir, config.count, unlink);
    RunSplit(w, SetConfig(who, config), Removals(who, names, unlink), TakeInventory(who));
    RemovalsPrune(configured, who, names, unlink);
    PruneNamedAll(w.dir, config.count, unlink, names);
    NewInventory(dir, w.actors, who, config);
  }

  lemma NewInventory(dir: Dir, actors: seq<Actor>, who: nat, config: Config)
    requires who < |actors|
    ensures var actor := actors[who].(config := config);
            Step(World(dir, actors[who := actor]), TakeInventory(who))
            == World(dir, actors[who := actor.(inventory := Scan(actor.codec, dir, config))])
  {
    var actor := actors[who].(config := config);
    var after := actor.(inventory := Scan(actor.codec, dir, config));
    assert actors[who := actor][who := after] == actors[who := after];
  }

  /** And so do the parts of opening a pool. */
  lemma SplitOpenIsOpen(w: World, codec: Codec, config: Config, unlink: string -> bool, names: seq<string>)
    requires forall name :: name in w.dir ==> name in names
    ensures Run(w, [Join(codec, config)] + Removals(|w.actors|, names, unlink) + [TakeInventory(|w.actors|)])
            == Step(w, Open(codec, config, unlink))
  {
    var who := |w.actors|;
    var joined := Step(w, Join(codec, config));
    RunSplit(w, Join(codec, config), Removals(who, names, unlink), TakeInventory(who));
    RemovalsPrune(joined, who, names, unlink);
    PruneNamedAll(w.dir, config.count, unlink, names);
    FirstInventory(Prune(w.dir, config.count, unlink), w.actors, Actor(codec, config, false, []));
  }

  lemma FirstInventory(dir: Dir, actors: seq<Actor>, newcomer: Actor)
    ensures Step(World(dir, actors + [newcomer]), TakeInventory(|actors|))
            == World(dir, actors + [newcomer.(inventory := Scan(newcomer.codec, dir, newcomer.config))])
  {
    var all := actors + [newcomer];
    assert all[|actors|] == newcomer;
    assert all[|actors| := newcomer.(inventory := Scan(newcomer.codec, dir, newcomer.config))]
        == actors + [newcomer.(inventory := Scan(newcomer.codec, dir, newcomer.config))];
  }

  lemma RunSplit(w: World, first: Event, middle: seq<Event>, last: Event)
    ensures Run(w, [first] + middle + [last]) == Step(Run(Step(w, first), middle), last)
  {
    assert ([first] + middle + [last])[1..] == middle + [last];
    RunConcat(Step(w, first), middle, [last]);
    OneEvent(Run(Step(w, first), middle), last);
  }

  lemma OneEvent(w: World, ev: Event)
    ensures Run(w, [ev]) == Step(w, ev)
  {
    assert [ev][1..] == [];
  }

  function Add(a: Ledger, b: Ledger): Ledger {
    Ledger(a.created + b.created, a.residue + b.residue, a.freed + b.freed,
           a.pruned + b.pruned, a.repaired + b.repaired)
  }

  function Run(w: World, events: seq<Event>): World
    decreases |events|
  {
    if events == [] then w else Run(Step(w, events[0]), events[1..])
  }

  ghost function Total(w: World, events: seq<Event>): Ledger
    decreases |events|
  {
    if events == [] then BLANK else Add(Flow(w, events[0]), Total(Step(w, events[0]), events[1..]))
  }

  ghost predicate Balanced(before: Dir, after: Dir, ledger: Ledger) {
    Bytes(after) + ledger.freed + ledger.pruned + ledger.repaired
      == Bytes(before) + ledger.created + ledger.residue
  }

  lemma CallConserves(dir: Dir, actor: Actor, call: Call)
    ensures Balanced(dir, Act(dir, actor, call).0, FlowOfCall(dir, actor, call))
  {
    match call {
      case FillSlots(single, _, _, _, _, free) =>
        PassConserves(JobOf(actor, call), single, dir, free);
      case ReleaseFiles(count, unlink) =>
        ReleaseConserves(dir, Take(Descending(actor.inventory), count), unlink, EMPTY_RELEASE);
      case UpdateConfig(config, orphanUnlink) =>
        PruneConserves(dir, config.count, orphanUnlink);
    }
  }

  lemma StepConserves(w: World, ev: Event)
    ensures Balanced(w.dir, Step(w, ev).dir, Flow(w, ev))
  {
    match ev {
      case Open(_, config, orphanUnlink) =>
        PruneConserves(w.dir, config.count, orphanUnlink);
      case By(who, call) =>
        if who < |w.actors| {
          CallConserves(w.dir, w.actors[who], call);
        }
      case RemoveOrphan(who, name, unlink) =>
        BytesAfterPut(w.dir, name, None);
      case _ =>
    }
  }

  lemma PassConserves(job: Job, single: bool, dir: Dir, free: int)
    ensures var r := Pass(job, single, dir, free);
            Bytes(r.dir) + Bytes(PrunedFiles(dir, job.config.count, job.orphanUnlink))
              + Repaired(job, single, Start(job, dir, free))
            == Bytes(dir) + r.report.bytes + Residue(job, single, Start(job, dir, free))
  {
    PruneConserves(dir, job.config.count, job.orphanUnlink);
    FillConserves(job, single, Start(job, dir, free));
  }

  /** Over any run of any number of managers, each with whatever inventory it remembers, the bytes
      on disk account exactly for everything reported created and freed. */
  lemma {:induction false} RunConserves(w: World, events: seq<Event>)
    ensures Balanced(w.dir, Run(w, events).dir, Total(w, events))
    decreases |events|
  {
    if events != [] {
      StepConserves(w, events[0]);
      RunConserves(Step(w, events[0]), events[1..]);
    }
  }

  /** No byte is counted freed twice: everything freed, pruned and repaired had been on disk or was
      put there. */
  lemma FreedIsBacked(w: World, events: seq<Event>)
    ensures var t := Total(w, events);
            t.freed + t.pruned + t.repaired <= Bytes(w.dir) + t.created + t.residue
  {
    RunConserves(w, events);
  }

  ghost predicate CleansUpAlways(events: seq<Event>) {
    forall k, i: u32 :: 0 <= k < |events| && events[k].By? && events[k].call.FillSlots? ==>
      events[k].call.fate(i).left == None
  }

  /** When failed creations clean up, the reports alone bound what was freed. */
  lemma FreedIsBackedByReports(w: World, events: seq<Event>)
    requires CleansUpAlways(events)
    ensures var t := Total(w, events);
            t.residue == 0 && t.freed <= Bytes(w.dir) + t.created
  {
    FreedIsBacked(w, events);
    NoResidueEver(w, events);
  }

  lemma {:induction false} NoResidueEver(w: World, events: seq<Event>)
    requires CleansUpAlways(events)
    ensures Total(w, events).residue == 0
    decreases |events|
  {
    if events != [] {
      var ev := events[0];
      if ev.By? && ev.who < |w.actors| && ev.call.FillSlots? {
        var job := JobOf(w.actors[ev.who], ev.call);
        forall i: u32
          ensures job.fate(i).left == None
        {
          assert events[0].call.fate(i).left == None;
        }
        CleanPassLeavesNoResidue(job, ev.call.single, Start(job, w.dir, ev.call.free));
      }
      assert CleansUpAlways(events[1..]) by {
        forall k, i: u32 | 0 <= k < |events[1..]| && events[1..][k].By? && events[1..][k].call.FillSlots?
          ensures events[1..][k].call.fate(i).left == None
        {
          assert events[k + 1].call.fate(i).left == None;
        }
      }
      NoResidueEver(Step(w, ev), events[1..]);
    }
  }
}
