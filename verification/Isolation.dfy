/** Runs of coordinator calls: what keeps the pools of different volumes apart over any sequence of
    releases, replenishments, bulk provisions and configuration updates. */
module Isolation {
  import opened Basics
  import opened Header
  import opened Pool
  import opened Views
  import opened Mounts
  import opened Coordinator

  datatype Operation =
    | ReleaseOn(mount: Path, count: nat, unlink: nat -> bool)
    | ReplenishOn(mount: Path, checked: bool, fate: nat -> Fate, orphanUnlink: string -> bool,
                  orphanGain: nat, free: int)
    | ProvisionEach(fates: Path -> VolumeFate)
    | Reconfigure(config: BallastConfig, orphanUnlinks: Path -> string -> bool)

  /** What a targeted call makes of the directory of the pool `p`. */
  function Target(codec: Codec, p: PoolView, dir: Dir, op: Operation): Dir
    requires op.ReleaseOn? || op.ReplenishOn?
  {
    match op
    case ReleaseOn(_, count, unlink) => Release(dir, p.inventory, count, unlink).0
    case ReplenishOn(_, checked, fate, orphanUnlink, orphanGain, free) =>
      Pass(Job(codec, p.config, p.skipFallocate, checked, fate, orphanUnlink, orphanGain), true, dir, free).dir
  }

  /** A pool's directory became `after` and the pool took inventory. */
  function Changed(codec: Codec, a: Stage, mount: Path, after: Dir): Stage
    requires mount in a.view
  {
    a.With(mount, Rescanned(codec, a.view[mount], after), after)
  }

  /** One call on the coordinator. A targeted call without a pool, a file or the lock changes nothing; a
      bulk operation ends in any state that its loop can reach. */
  ghost predicate OperationStep(codec: Codec, a: Stage, op: Operation, b: Stage) {
    match op
    case ReleaseOn(mount, _, _) => TargetedStep(codec, a, mount, op, b)
    case ReplenishOn(mount, _, _, _, _, _) => TargetedStep(codec, a, mount, op, b)
    case ProvisionEach(fates) => exists results :: BulkState(BulkJudgement(codec, fates, a), {}, a, b, results)
    case Reconfigure(config, unlinks) =>
      exists results :: BulkState(UpdateJudgement(codec, config, unlinks, a), {}, a, b, results)
  }

  ghost predicate TargetedStep(codec: Codec, a: Stage, mount: Path, op: Operation, b: Stage)
    requires op.ReleaseOn? || op.ReplenishOn?
  {
    || b == a
    || (mount in a.view && a.view[mount].dir in a.dirs
        && b == Changed(codec, a, mount, Target(codec, a.view[mount], a.dirs[a.view[mount].dir], op)))
  }

  /** The invariant: no two pools share a directory, and every inventory mirrors its directory. */
  ghost predicate Apart(codec: Codec, s: Stage) {
    Isolated(s.view) && InStep(codec, s.view, s.dirs)
  }

  /** A judgement under which every inventory that mirrored its directory still does. */
  ghost predicate KeepsMirror(codec: Codec, judge: Judgement, a: Stage) {
    forall k, p, dir, result :: judge(k, p, dir, result) && k in a.view && a.view[k].dir in a.dirs ==>
      (p == a.view[k] && dir == a.dirs[a.view[k].dir]) || p.inventory == Scan(codec, dir, p.config)
  }

  lemma BulkKeepsApart(codec: Codec, judge: Judgement, a: Stage, b: Stage, results: map<Path, VolumeResult>)
    requires Apart(codec, a) && BulkState(judge, {}, a, b, results) && KeepsMirror(codec, judge, a)
    ensures Apart(codec, b)
  {
    forall k | k in b.view
      ensures b.view[k].dir in b.dirs && b.view[k].inventory == Scan(codec, b.dirs[b.view[k].dir], b.view[k].config)
    {
      assert k in results;
      assert judge(k, b.view[k], b.dirs[b.view[k].dir], results[k]);
    }
  }

  lemma ProvisionKeepsApart(codec: Codec, fates: Path -> VolumeFate, a: Stage, b: Stage,
                            results: map<Path, VolumeResult>)
    requires Apart(codec, a) && BulkState(BulkJudgement(codec, fates, a), {}, a, b, results)
    ensures Apart(codec, b)
  {
    assert KeepsMirror(codec, BulkJudgement(codec, fates, a), a);
    BulkKeepsApart(codec, BulkJudgement(codec, fates, a), a, b, results);
  }

  lemma UpdateMirrors(codec: Codec, config: BallastConfig, unlinks: Path -> string -> bool, a: Stage,
                      k: Path, p: PoolView, dir: Dir, result: VolumeResult)
    requires UpdateJudgement(codec, config, unlinks, a)(k, p, dir, result)
    ensures p.inventory == Scan(codec, dir, p.config)
  {
  }

  lemma UpdateKeepsApart(codec: Codec, config: BallastConfig, unlinks: Path -> string -> bool, a: Stage, b: Stage,
                         results: map<Path, VolumeResult>)
    requires Apart(codec, a) && BulkState(UpdateJudgement(codec, config, unlinks, a), {}, a, b, results)
    ensures Apart(codec, b)
  {
    var judge := UpdateJudgement(codec, config, unlinks, a);
    forall k, p, dir, result | judge(k, p, dir, result)
      ensures p.inventory == Scan(codec, dir, p.config)
    {
      UpdateMirrors(codec, config, unlinks, a, k, p, dir, result);
    }
    assert KeepsMirror(codec, judge, a);
    BulkKeepsApart(codec, judge, a, b, results);
  }

  lemma StepKeepsApart(codec: Codec, a: Stage, op: Operation, b: Stage)
    requires Apart(codec, a) && OperationStep(codec, a, op, b)
    ensures Apart(codec, b)
  {
    match op {
      case ReleaseOn(mount, _, _) =>
        TargetedKeepsApart(codec, a, mount, op, b);
      case ReplenishOn(mount, _, _, _, _, _) =>
        TargetedKeepsApart(codec, a, mount, op, b);
      case ProvisionEach(fates) =>
        var results :| BulkState(BulkJudgement(codec, fates, a), {}, a, b, results);
        ProvisionKeepsApart(codec, fates, a, b, results);
      case Reconfigure(config, unlinks) =>
        var results :| BulkState(UpdateJudgement(codec, config, unlinks, a), {}, a, b, results);
        UpdateKeepsApart(codec, config, unlinks, a, b, results);
    }
  }

  /** A targeted call leaves every other pool and its files alone. */
  lemma TargetedKeepsApart(codec: Codec, a: Stage, mount: Path, op: Operation, b: Stage)
    requires op.ReleaseOn? || op.ReplenishOn?
    requires Apart(codec, a) && TargetedStep(codec, a, mount, op, b)
    ensures Apart(codec, b)
    ensures forall k :: k in a.view && k != mount ==> SamePoolAt(a, b, k)
  {
    if b != a {
      var p := a.view[mount];
      var after := Target(codec, p, a.dirs[p.dir], op);
      StillInStep(codec, a.view, a.dirs, mount, Rescanned(codec, p, after), after);
    }
  }

  /** The pool on `k` has the same settings, inventory and files in both. */
  ghost predicate SamePoolAt(a: Stage, b: Stage, k: Path) {
    && k in a.view && k in b.view && b.view[k] == a.view[k]
    && Found(b.dirs, a.view[k].dir) == Found(a.dirs, a.view[k].dir)
  }

  /** The states a run passes through. */
  ghost predicate IsRun(codec: Codec, ops: seq<Operation>, stages: seq<Stage>) {
    && |stages| == |ops| + 1
    && forall k :: 0 <= k < |ops| ==> OperationStep(codec, stages[k], ops[k], stages[k + 1])
  }

  lemma StepOfRun(codec: Codec, ops: seq<Operation>, stages: seq<Stage>, k: nat)
    requires IsRun(codec, ops, stages) && k < |ops|
    ensures OperationStep(codec, stages[k], ops[k], stages[k + 1])
  {
  }

  /** Over any run of calls, pools that start apart stay apart. */
  lemma {:induction false} RunKeepsApart(codec: Codec, ops: seq<Operation>, stages: seq<Stage>, n: nat)
    requires IsRun(codec, ops, stages) && Apart(codec, stages[0]) && n < |stages|
    ensures Apart(codec, stages[n])
  {
    if n > 0 {
      RunKeepsApart(codec, ops, stages, n - 1);
      StepOfRun(codec, ops, stages, n - 1);
      StepKeepsApart(codec, stages[n - 1], ops[n - 1], stages[n]);
    }
  }

  /** Over any run of calls targeted at other mounts, a pool keeps its settings, inventory and files,
      whatever faults the others meet. */
  lemma {:induction false} OthersNeverTouch(codec: Codec, ops: seq<Operation>, stages: seq<Stage>, k: Path, n: nat)
    requires IsRun(codec, ops, stages) && Apart(codec, stages[0]) && k in stages[0].view && n < |stages|
    requires forall i :: 0 <= i < n ==> (ops[i].ReleaseOn? || ops[i].ReplenishOn?) && ops[i].mount != k
    ensures SamePoolAt(stages[0], stages[n], k)
  {
    if n > 0 {
      OthersNeverTouch(codec, ops, stages, k, n - 1);
      RunKeepsApart(codec, ops, stages, n - 1);
      StepOfRun(codec, ops, stages, n - 1);
      TargetedKeepsApart(codec, stages[n - 1], ops[n - 1].mount, ops[n - 1], stages[n]);
    }
  }

  /** Over any run, a release lowers the total over all pools by exactly what it reports. */
  lemma ReleasesAreExactInRuns(codec: Codec, ops: seq<Operation>, stages: seq<Stage>, n: nat)
    requires IsRun(codec, ops, stages) && Apart(codec, stages[0]) && n < |ops| && ops[n].ReleaseOn?
    requires ops[n].mount in stages[n].view && stages[n + 1] != stages[n]
    ensures var p := stages[n].view[ops[n].mount];
            var report := Release(stages[n].dirs[p.dir], p.inventory, ops[n].count, ops[n].unlink).1;
            TotalReleasable(stages[n + 1].view) + report.freed == TotalReleasable(stages[n].view)
  {
    RunKeepsApart(codec, ops, stages, n);
    var s := stages[n];
    forall k | k in s.view
      ensures InRange(s.view[k].inventory, s.view[k].config.count)
    {
      ScanInRange(codec, s.dirs[s.view[k].dir], s.view[k].config);
    }
    ReleaseIsExactIff(codec, s.view, s.dirs, ops[n].mount, ops[n].count, ops[n].unlink);
    StepOfRun(codec, ops, stages, n);
  }

  // ---------- the coordinator's calls ----------

  /** Performs one call on a coordinator; `locked` says whether the lock of a targeted pool is free. */
  method Perform(c: BallastPoolCoordinator, op: Operation, locked: bool)
    requires c.Valid() && Apart(c.codec, c.Now())
    modifies c.fs, c.Managers()
    ensures c.Valid() && c.pools == old(c.pools)
    ensures OperationStep(c.codec, old(c.Now()), op, c.Now())
  {
    match op {
      case ReleaseOn(mount, count, unlink) =>
        var _ := c.ReleaseForMount(mount, locked, count, unlink);
      case ReplenishOn(mount, checked, fate, orphanUnlink, orphanGain, free) =>
        var _ := c.ReplenishForMount(mount, locked, checked, fate, orphanUnlink, orphanGain, free);
      case ProvisionEach(fates) =>
        var results := c.ProvisionAll(fates);
      case Reconfigure(config, orphanUnlinks) =>
        ghost var results := c.UpdateConfig(config, orphanUnlinks);
    }
  }
}
