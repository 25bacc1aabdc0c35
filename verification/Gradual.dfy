/** Gradual replenishment against bulk provisioning: one file per call reaches the same pool. */
module Gradual {
  import opened Basics
  import opened Header
  import opened SlotNames
  import opened Pool
  import opened Accounting
  import opened Writes

  /** Nothing goes wrong: the free check passes, every creation succeeds with real blocks, and
      every leftover can be removed. */
  ghost predicate Benign(job: Job) {
    && Lawful(job.codec)
    && (forall i, free :: job.checked ==> !job.fate(i).low(free))
    && (forall i: u32 :: CreateFile(job, i).Written? && Allocated(job, i))
    && (forall name :: job.orphanUnlink(name))
  }

  /** In terms of the environment's answers alone. */
  lemma BenignIff(job: Job)
    ensures Benign(job) <==>
            && Lawful(job.codec)
            && (forall i, free :: job.checked ==> !job.fate(i).low(free))
            && (forall i: u32 :: Completes(job, i) && Allocated(job, i))
            && (forall name :: job.orphanUnlink(name))
  {
    forall i: u32 {
      CreationIff(job, i);
    }
  }

  predicate Bad(codec: Codec, dir: Dir, config: Config, i: nat) {
    !Intact(codec, At(dir, i), i, config.size)
  }

  function BadSlots(codec: Codec, dir: Dir, config: Config): nat -> bool {
    (i: nat) => Bad(codec, dir, config, i)
  }

  /** The number of slots that are missing or fail verification. */
  function BadCount(codec: Codec, dir: Dir, config: Config): nat {
    CountUpTo(BadSlots(codec, dir, config), config.count)
  }

  lemma VisitWhenBenign(job: Job, index: u32, found: Option<Node>, free: int)
    requires Benign(job)
    ensures var v := VisitSlot(job, index, found, free);
            && (Intact(job.codec, found, index, job.config.size) ==> v.outcome.Skipped? && v.node == found)
            && (!Intact(job.codec, found, index, job.config.size) ==>
                 && v.outcome.Created? && v.node == Some(CreateFile(job, index).node)
                 && Intact(job.codec, v.node, index, job.config.size))
  {
    var fate := job.fate(index);
    assert job.checked ==> !fate.low(free) && !fate.low(free + fate.gain);
    if !Intact(job.codec, found, index, job.config.size) {
      CreatedIsIntact(job, index, found, free);
    }
  }

  /** The first bad slot in lo..count, or count + 1. */
  function FirstBad(codec: Codec, dir: Dir, config: Config, lo: nat): (b: nat)
    ensures lo <= b
    ensures forall i :: lo <= i < b && i <= config.count ==> !Bad(codec, dir, config, i)
    ensures b <= config.count ==> Bad(codec, dir, config, b)
    ensures lo <= config.count + 1 ==> b <= config.count + 1
    decreases config.count + 1 - lo
  {
    if lo > config.count || Bad(codec, dir, config, lo) then lo
    else FirstBad(codec, dir, config, lo + 1)
  }

  /** One call of `replenish_one` repairs exactly the lowest bad slot, or nothing when there is none. */
  lemma {:induction false} SingleFill(job: Job, s: Fill)
    requires Benign(job) && 1 <= s.next <= job.config.count + 1
    ensures var r := FillFrom(job, true, s);
            var b := FirstBad(job.codec, s.dir, job.config, s.next);
            if b > job.config.count then r.dir == s.dir && r.report.created == s.report.created
            else r.dir == Put(s.dir, SlotName(b), Some(CreateFile(job, b).node))
                 && r.report.created == s.report.created + 1
    decreases job.config.count + 1 - s.next
  {
    if s.next <= job.config.count {
      VisitWhenBenign(job, s.next, At(s.dir, s.next), s.free);
      if !Bad(job.codec, s.dir, job.config, s.next) {
        assert Advance(job, s).dir == s.dir;
        SingleFill(job, Advance(job, s));
      }
    }
  }

  lemma ReplenishOneRepairsLowest(job: Job, dir: Dir, free: int)
    requires Benign(job)
    ensures var r := Pass(job, true, dir, free);
            var clean := Prune(dir, job.config.count, job.orphanUnlink);
            var b := FirstBad(job.codec, clean, job.config, 1);
            if b > job.config.count then r.dir == clean && r.report.created == 0
            else r.dir == Put(clean, SlotName(b), Some(CreateFile(job, b).node)) && r.report.created == 1
  {
    SingleFill(job, Start(job, dir, free));
  }

  /** A benign `provision` repairs every bad slot and leaves the others alone. */
  lemma BulkRepairsAll(job: Job, dir: Dir, free: int)
    requires Benign(job)
    ensures var r := Pass(job, false, dir, free);
            var clean := Prune(dir, job.config.count, job.orphanUnlink);
            && AllIntact(job.codec, r.dir, job.config)
            && (forall i: u32 :: 1 <= i <= job.config.count ==>
                 At(r.dir, i) == if Bad(job.codec, clean, job.config, i)
                                 then Some(CreateFile(job, i).node) else At(clean, i))
            && (forall name :: (forall i: u32 :: 1 <= i <= job.config.count ==> name != SlotName(i)) ==>
                 Lookup(r.dir, name) == Lookup(clean, name))
  {
    var s := Start(job, dir, free);
    var r := Pass(job, false, dir, free);
    PassIsLocal(job, false, s);
    HaltingIsLast(job, false, s);
    forall i: u32 | 1 <= i < r.next
      ensures At(r.dir, i) == if Bad(job.codec, s.dir, job.config, i)
                              then Some(CreateFile(job, i).node) else At(s.dir, i)
      ensures !Halts(false, VisitAt(job, false, s, i).outcome) && !Bad(job.codec, r.dir, job.config, i)
    {
      VisitWhenBenign(job, i, At(s.dir, i), StateAt(job, false, s, i).free);
    }
    assert r.next == job.config.count + 1;
  }

  // ---------- repeated single calls ----------

  /** One replenishing call per job, in order. */
  function Replenish(dir: Dir, jobs: seq<Job>): Dir
    decreases |jobs|
  {
    if jobs == [] then dir else Replenish(Pass(jobs[0], true, dir, 0).dir, jobs[1..])
  }

  ghost predicate SameSettings(jobs: seq<Job>, codec: Codec, config: Config) {
    forall k :: 0 <= k < |jobs| ==> Benign(jobs[k]) && jobs[k].codec == codec && jobs[k].config == config
  }

  lemma PruneKeepsSlots(codec: Codec, dir: Dir, config: Config, unlink: string -> bool)
    ensures var clean := Prune(dir, config.count, unlink);
            && (forall i: u32 :: 1 <= i <= config.count ==> At(clean, i) == At(dir, i))
            && BadCount(codec, clean, config) == BadCount(codec, dir, config)
  {
    var clean := Prune(dir, config.count, unlink);
    forall i: u32 | 1 <= i <= config.count
      ensures At(clean, i) == At(dir, i)
    {
      PruneOnSlots(dir, config.count, unlink, i);
    }
    CountsAgree(BadSlots(codec, clean, config), BadSlots(codec, dir, config), config.count);
  }

  lemma {:induction false} CountsAgree(p: nat -> bool, q: nat -> bool, n: nat)
    requires forall i :: 1 <= i <= n ==> p(i) == q(i)
    ensures CountUpTo(p, n) == CountUpTo(q, n)
  {
    if n > 0 {
      CountsAgree(p, q, n - 1);
    }
  }

  lemma {:induction false} CountDropsByOne(p: nat -> bool, q: nat -> bool, n: nat, b: nat)
    requires 1 <= b <= n && p(b) && !q(b)
    requires forall i :: 1 <= i <= n && i != b ==> p(i) == q(i)
    ensures CountUpTo(p, n) == CountUpTo(q, n) + 1
  {
    if b == n {
      CountsAgree(p, q, n - 1);
    } else {
      CountDropsByOne(p, q, n - 1, b);
    }
  }

  /** The bad-slot count is the termination measure: each call lowers it by one until it is zero,
      after which a call creates nothing. */
  lemma ReplenishMeasure(job: Job, dir: Dir, free: int)
    requires Benign(job)
    ensures var r := Pass(job, true, dir, free);
            var bad := BadCount(job.codec, dir, job.config);
            && BadCount(job.codec, r.dir, job.config) == (if bad == 0 then 0 else bad - 1)
            && r.report.created == (if bad == 0 then 0 else 1)
            && (bad == 0 ==> r.dir == Prune(dir, job.config.count, job.orphanUnlink))
  {
    var config, codec := job.config, job.codec;
    var r := Pass(job, true, dir, free);
    var clean := Prune(dir, config.count, job.orphanUnlink);
    var b := FirstBad(codec, clean, config, 1);
    PruneKeepsSlots(codec, dir, config, job.orphanUnlink);
    ReplenishOneRepairsLowest(job, dir, free);
    if b <= config.count {
      forall i: u32 {
        PutAt(clean, b, Some(CreateFile(job, b).node), i);
      }
      VisitWhenBenign(job, b, At(clean, b), 0);
      CountDropsByOne(BadSlots(codec, clean, config), BadSlots(codec, r.dir, config), config.count, b);
    } else {
      NoneCounted(BadSlots(codec, clean, config), config.count);
    }
  }

  /** Two directories with the same pool: every slot intact in both (so of the configured size), and
      every other file identical. */
  ghost predicate SamePool(codec: Codec, config: Config, a: Dir, b: Dir) {
    && AllIntact(codec, a, config) && AllIntact(codec, b, config)
    && SameElsewhere(config, a, b)
  }

  ghost predicate SameElsewhere(config: Config, a: Dir, b: Dir) {
    forall name :: (forall i: u32 :: 1 <= i <= config.count ==> name != SlotName(i)) ==>
      Lookup(a, name) == Lookup(b, name)
  }

  lemma {:induction false} ReplenishRun(dir: Dir, jobs: seq<Job>, codec: Codec, config: Config)
    requires SameSettings(jobs, codec, config)
    ensures var bad := BadCount(codec, dir, config);
            var after := Replenish(dir, jobs);
            && BadCount(codec, after, config) == (if bad <= |jobs| then 0 else bad - |jobs|)
            && (jobs != [] ==> SameElsewhere(config, after, Prune(dir, config.count, jobs[0].orphanUnlink)))
    decreases |jobs|
  {
    if jobs != [] {
      var job := jobs[0];
      var next := Pass(job, true, dir, 0).dir;
      ReplenishMeasure(job, dir, 0);
      ReplenishRun(next, jobs[1..], codec, config);
      OneCallElsewhere(job, dir);
      if |jobs| > 1 {
        PassLeavesNoOrphans(job, true, dir, 0);
        assert Prune(next, config.count, jobs[1].orphanUnlink) == next;
      }
    }
  }

  lemma OneCallElsewhere(job: Job, dir: Dir)
    requires Benign(job)
    ensures SameElsewhere(job.config, Pass(job, true, dir, 0).dir, Prune(dir, job.config.count, job.orphanUnlink))
  {
    ReplenishOneRepairsLowest(job, dir, 0);
  }

  /** A directory whose slots are all intact and whose other files are those of `base`. */
  ghost predicate FullOver(codec: Codec, config: Config, dir: Dir, base: Dir) {
    AllIntact(codec, dir, config) && SameElsewhere(config, dir, base)
  }

  lemma ReplenishedIsFull(dir: Dir, jobs: seq<Job>, codec: Codec, config: Config)
    requires SameSettings(jobs, codec, config)
    requires jobs != [] && BadCount(codec, dir, config) <= |jobs|
    ensures FullOver(codec, config, Replenish(dir, jobs), Prune(dir, config.count, jobs[0].orphanUnlink))
  {
    var after := Replenish(dir, jobs);
    ReplenishRun(dir, jobs, codec, config);
    NoneCounted(BadSlots(codec, after, config), config.count);
    forall i: u32 | 1 <= i <= config.count
      ensures Intact(codec, At(after, i), i, config.size)
    {
      assert !BadSlots(codec, after, config)(i);
    }
  }

  lemma ProvisionedIsFull(job: Job, dir: Dir, free: int)
    requires Benign(job)
    ensures FullOver(job.codec, job.config, Pass(job, false, dir, free).dir,
                     Prune(dir, job.config.count, job.orphanUnlink))
  {
    BulkRepairsAll(job, dir, free);
  }

  lemma PruneAgrees(dir: Dir, count: nat, a: string -> bool, b: string -> bool)
    requires forall name :: a(name) == b(name)
    ensures Prune(dir, count, a) == Prune(dir, count, b)
  {
  }

  /** Gradual replenishment refines bulk provisioning: once there were as many calls as bad slots
      (and for any larger number), the pool is the one a single `provision` makes. */
  lemma GradualRefinesBulk(dir: Dir, jobs: seq<Job>, bulk: Job)
    requires SameSettings(jobs, bulk.codec, bulk.config) && Benign(bulk)
    requires jobs != [] && BadCount(bulk.codec, dir, bulk.config) <= |jobs|
    ensures SamePool(bulk.codec, bulk.config, Replenish(dir, jobs), Pass(bulk, false, dir, 0).dir)
  {
    ReplenishedIsFull(dir, jobs, bulk.codec, bulk.config);
    ProvisionedIsFull(bulk, dir, 0);
    PruneAgrees(dir, bulk.config.count, jobs[0].orphanUnlink, bulk.orphanUnlink);
    SamePoolFrom(bulk.codec, bulk.config, Replenish(dir, jobs), Pass(bulk, false, dir, 0).dir,
                 Prune(dir, bulk.config.count, bulk.orphanUnlink));
  }

  lemma SamePoolFrom(codec: Codec, config: Config, a: Dir, b: Dir, base: Dir)
    requires FullOver(codec, config, a, base) && FullOver(codec, config, b, base)
    ensures SamePool(codec, config, a, b)
  {
  }
}
