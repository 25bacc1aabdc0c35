/** One ballast pool per monitored volume: discovery, targeting and isolation
    (src/ballast/coordinator.rs). */
module Coordinator {
  import opened Basics
  import opened Header
  import opened Pool
  import opened Availability
  import opened Views
  import opened Mounts
  import opened Manager

  datatype BallastPool = BallastPool(
    mount: Path, dir: Path, fsType: string, strategy: Strategy, manager: BallastManager)

  datatype SkippedPool = SkippedPool(dir: Path, fsType: string, strategy: Strategy, reason: SkipReason)

  /** A targeted call: no pool (or nothing to do) there, the pool's lock not obtained, or a report. */
  datatype Reply<T> = NothingThere | LockFailed | Reported(value: T)

  /** Why a whole volume was passed over by a bulk provision. */
  datatype VolumeSkip = StatsUnavailable | FreeSpaceTooLow | ProvisionFailed

  /** What a bulk operation reports for one volume. */
  datatype VolumeResult = Provided(report: ProvisionReport) | PassedOver(reason: VolumeSkip) | Reconfigured

  /** What the environment answers about one volume during a bulk provision. */
  datatype VolumeFate = VolumeFate(
    stats: Option<int>, total: nat, locked: bool,
    fate: nat -> Fate, orphanUnlink: string -> bool, orphanGain: nat)

  /** The pre-flight test on one volume: None means go ahead. */
  function Preflight(v: VolumeFate): Option<VolumeSkip> {
    if v.stats.None? then Some(StatsUnavailable)
    else if v.total == 0 || 5 * v.stats.value < v.total then Some(FreeSpaceTooLow)
    else if !v.locked then Some(ProvisionFailed)
    else None
  }

  // ---------- the pools as values ----------

  /** A pool with the state of its manager. */
  datatype PoolView = PoolView(
    dir: Path, fsType: string, strategy: Strategy,
    config: Config, skipFallocate: bool, inventory: seq<BallastFile>)

  /** No two pools share a directory. */
  ghost predicate Isolated(view: map<Path, PoolView>) {
    forall j, k :: j in view && k in view && view[j].dir == view[k].dir ==> j == k
  }

  /** Every inventory mirrors its directory. */
  ghost predicate InStep(codec: Codec, view: map<Path, PoolView>, dirs: map<Path, Dir>) {
    forall k :: k in view ==>
      view[k].dir in dirs && view[k].inventory == Scan(codec, dirs[view[k].dir], view[k].config)
  }

  ghost function Releasables(view: map<Path, PoolView>): map<Path, nat> {
    map k | k in view :: TotalSize(view[k].inventory)
  }

  /** Releasable bytes over all pools. */
  ghost function TotalReleasable(view: map<Path, PoolView>): nat {
    SumMap(Releasables(view))
  }

  /** The pools and directories after one pool's directory became `after` and it took inventory. */
  function Rescanned(codec: Codec, p: PoolView, after: Dir): PoolView {
    p.(inventory := Scan(codec, after, p.config))
  }

  lemma StillInStep(codec: Codec, view: map<Path, PoolView>, dirs: map<Path, Dir>, mount: Path, p: PoolView, after: Dir)
    requires mount in view && Isolated(view) && InStep(codec, view, dirs)
    requires p.dir == view[mount].dir && p.inventory == Scan(codec, after, p.config)
    ensures Isolated(view[mount := p]) && InStep(codec, view[mount := p], dirs[p.dir := after])
    ensures forall k :: k in view && k != mount ==> dirs[p.dir := after][view[k].dir] == dirs[view[k].dir]
  {
  }

  lemma TotalAfterChange(view: map<Path, PoolView>, mount: Path, p: PoolView)
    requires mount in view
    ensures TotalReleasable(view[mount := p]) + TotalSize(view[mount].inventory)
            == TotalReleasable(view) + TotalSize(p.inventory)
  {
    assert Releasables(view[mount := p]) == Releasables(view)[mount := TotalSize(p.inventory)];
    SumMapUpdate(Releasables(view), mount, TotalSize(p.inventory));
  }

  /** The total is built up pool by pool. */
  lemma TotalOfOneMore(view: map<Path, PoolView>, mount: Path, p: PoolView)
    requires mount !in view
    ensures TotalReleasable(map[]) == 0
    ensures TotalReleasable(view[mount := p]) == TotalReleasable(view) + TotalSize(p.inventory)
  {
    var more := Releasables(view[mount := p]);
    SumMapWithout(more, mount);
    assert more - {mount} == Releasables(view);
    assert Releasables(map[]) == map[];
  }

  /** A pool in a directory of its own joins without disturbing the others. */
  lemma PoolAdded(codec: Codec, view: map<Path, PoolView>, dirs: map<Path, Dir>, key: Path, p: PoolView, after: Dir)
    requires InStep(codec, view, dirs) && p.inventory == Scan(codec, after, p.config)
    requires forall k :: k in view ==> view[k].dir != p.dir
    ensures InStep(codec, view[key := p], dirs[p.dir := after])
  {
  }

  /** Every pool has its directory, and remembers only slots it is configured for. */
  ghost predicate Sound(view: map<Path, PoolView>, dirs: map<Path, Dir>) {
    forall k :: k in view ==> view[k].dir in dirs && InRange(view[k].inventory, view[k].config.count)
  }

  /** Between isolated pools, whatever each remembers, releasing on one mount leaves every other pool
      and its files alone, and lowers the total by exactly the bytes reported freed if and only if that
      pool's remembered total was right. */
  lemma ReleaseIsExactIff(codec: Codec, view: map<Path, PoolView>, dirs: map<Path, Dir>,
                          mount: Path, count: nat, unlink: nat -> bool)
    requires mount in view && Isolated(view) && Sound(view, dirs)
    ensures var p := view[mount];
            var (after, report) := Release(dirs[p.dir], p.inventory, count, unlink);
            var view', dirs' := view[mount := Rescanned(codec, p, after)], dirs[p.dir := after];
            && (forall k :: k in view && k != mount ==>
                 view'[k] == view[k] && dirs'[view[k].dir] == dirs[view[k].dir])
            && (TotalReleasable(view') + report.freed == TotalReleasable(view)
                <==> TotalSize(p.inventory) == TotalSize(Scan(codec, dirs[p.dir], p.config)))
  {
    var p := view[mount];
    var (after, report) := Release(dirs[p.dir], p.inventory, count, unlink);
    ReleaseLowersInventoryIff(codec, dirs[p.dir], p.config, p.inventory, count, unlink);
    TotalAfterChange(view, mount, Rescanned(codec, p, after));
  }

  lemma PoolJoins(codec: Codec, plan: map<Path, Volume>, remaining: set<Path>, view: map<Path, PoolView>,
                  skipped: map<Path, SkippedPool>, dirs: map<Path, Dir>, key: Path, after: Dir)
    requires Discovered(plan, remaining, view, skipped) && key in remaining && key in plan
    requires plan[key].reason == None
    ensures var p := Foreseen(plan[key], Scan(codec, after, plan[key].config));
            && Discovered(plan, remaining - {key}, view[key := p], skipped)
            && (Separate(plan) && InStep(codec, view, dirs) ==> InStep(codec, view[key := p], dirs[p.dir := after]))
  {
    if Separate(plan) && InStep(codec, view, dirs) {
      PoolAdded(codec, view, dirs, key, Foreseen(plan[key], Scan(codec, after, plan[key].config)), after);
    }
  }

  // ---------- what discovery does to the disk ----------

  function Found(dirs: map<Path, Dir>, d: Path): Option<Dir> {
    if d in dirs then Some(dirs[d]) else None
  }

  /** A pool directory once opened: created if it was not there, and pruned. */
  function Opened(dirs: map<Path, Dir>, v: Volume, unlink: string -> bool): Dir {
    Prune(if v.dir in dirs then dirs[v.dir] else map[], v.config.count, unlink)
  }

  /** The directories after one more mount was visited. */
  function Visited(dirs: map<Path, Dir>, v: Volume, unlink: string -> bool): map<Path, Dir> {
    if v.reason.Some? then dirs else dirs[v.dir := Opened(dirs, v, unlink)]
  }

  /** The planned mounts visited so far that get a pool. */
  predicate Pooled(plan: map<Path, Volume>, remaining: set<Path>, k: Path) {
    k in plan && k !in remaining && plan[k].reason == None
  }

  ghost predicate IsPoolDir(plan: map<Path, Volume>, remaining: set<Path>, d: Path) {
    exists k :: Pooled(plan, remaining, k) && plan[k].dir == d
  }

  ghost function Base(dirs: map<Path, Dir>, d: Path): Dir {
    if d in dirs then dirs[d] else map[]
  }

  /** No pool built in this directory removed the entry. */
  ghost predicate Stays(plan: map<Path, Volume>, remaining: set<Path>, unlinks: Path -> string -> bool,
                        d: Path, name: string, node: Node)
  {
    forall k :: Pooled(plan, remaining, k) && plan[k].dir == d ==>
      !(IsOrphan(name, node, plan[k].config.count) && unlinks(k)(name))
  }

  /** A directory of no pool is as it was; any other is there and holds what none of its pools removed. */
  ghost predicate DirDone(plan: map<Path, Volume>, remaining: set<Path>, unlinks: Path -> string -> bool,
                          before: map<Path, Dir>, now: map<Path, Dir>, d: Path)
  {
    if IsPoolDir(plan, remaining, d) then
      && d in now
      && (forall name :: name in now[d] <==>
           name in Base(before, d) && Stays(plan, remaining, unlinks, d, name, Base(before, d)[name]))
      && (forall name :: name in now[d] ==> now[d][name] == Base(before, d)[name])
    else Found(now, d) == Found(before, d)
  }

  /** Discovery touches the directories of the pools it builds, each as those pools prune it, and no
      others. */
  ghost predicate DiskDone(plan: map<Path, Volume>, remaining: set<Path>, unlinks: Path -> string -> bool,
                           before: map<Path, Dir>, now: map<Path, Dir>)
  {
    forall d :: DirDone(plan, remaining, unlinks, before, now, d)
  }

  lemma StaysOneMore(plan: map<Path, Volume>, remaining: set<Path>, unlinks: Path -> string -> bool,
                     d: Path, name: string, node: Node, key: Path)
    requires key in remaining && key in plan && plan[key].reason == None && plan[key].dir == d
    ensures Stays(plan, remaining - {key}, unlinks, d, name, node) <==>
            && Stays(plan, remaining, unlinks, d, name, node)
            && !(IsOrphan(name, node, plan[key].config.count) && unlinks(key)(name))
  {
    assert Pooled(plan, remaining - {key}, key);
    assert forall k :: Pooled(plan, remaining - {key}, k) <==> Pooled(plan, remaining, k) || k == key;
  }

  /** The directory in which a pool was just opened. */
  lemma OwnDirAdvances(plan: map<Path, Volume>, remaining: set<Path>, unlinks: Path -> string -> bool,
                       before: map<Path, Dir>, now: map<Path, Dir>, key: Path)
    requires key in remaining && key in plan && plan[key].reason == None
    requires DirDone(plan, remaining, unlinks, before, now, plan[key].dir)
    ensures DirDone(plan, remaining - {key}, unlinks, before, Visited(now, plan[key], unlinks(key)), plan[key].dir)
  {
    var d := plan[key].dir;
    var next, base := Visited(now, plan[key], unlinks(key)), Base(before, d);
    assert Pooled(plan, remaining - {key}, key);
    forall name | name in base
      ensures name in next[d] <==> Stays(plan, remaining - {key}, unlinks, d, name, base[name])
    {
      StaysOneMore(plan, remaining, unlinks, d, name, base[name], key);
      assert !IsPoolDir(plan, remaining, d) ==> Stays(plan, remaining, unlinks, d, name, base[name]);
    }
  }

  lemma OtherDirAdvances(plan: map<Path, Volume>, remaining: set<Path>, unlinks: Path -> string -> bool,
                         before: map<Path, Dir>, now: map<Path, Dir>, key: Path, d: Path)
    requires key in remaining && key in plan && (plan[key].reason.Some? || plan[key].dir != d)
    requires DirDone(plan, remaining, unlinks, before, now, d)
    ensures DirDone(plan, remaining - {key}, unlinks, before, Visited(now, plan[key], unlinks(key)), d)
  {
    var left := remaining - {key};
    assert forall k :: Pooled(plan, left, k) && plan[k].dir == d <==> Pooled(plan, remaining, k) && plan[k].dir == d;
    assert IsPoolDir(plan, left, d) <==> IsPoolDir(plan, remaining, d);
    forall name, node
      ensures Stays(plan, left, unlinks, d, name, node) <==> Stays(plan, remaining, unlinks, d, name, node)
    {
    }
  }

  lemma DiskAdvances(plan: map<Path, Volume>, remaining: set<Path>, unlinks: Path -> string -> bool,
                     before: map<Path, Dir>, now: map<Path, Dir>, key: Path)
    requires key in remaining && key in plan && DiskDone(plan, remaining, unlinks, before, now)
    ensures DiskDone(plan, remaining - {key}, unlinks, before, Visited(now, plan[key], unlinks(key)))
  {
    forall d
      ensures DirDone(plan, remaining - {key}, unlinks, before, Visited(now, plan[key], unlinks(key)), d)
    {
      assert DirDone(plan, remaining, unlinks, before, now, d);
      if plan[key].reason == None && plan[key].dir == d {
        OwnDirAdvances(plan, remaining, unlinks, before, now, key);
      } else {
        OtherDirAdvances(plan, remaining, unlinks, before, now, key, d);
      }
    }
  }

  /** A directory that is one pool's alone was opened once. */
  lemma OwnDirIsOpened(plan: map<Path, Volume>, unlinks: Path -> string -> bool,
                       before: map<Path, Dir>, now: map<Path, Dir>, k: Path)
    requires DiskDone(plan, {}, unlinks, before, now) && Separate(plan) && k in plan && plan[k].reason == None
    ensures Found(now, plan[k].dir) == Some(Opened(before, plan[k], unlinks(k)))
  {
    var d := plan[k].dir;
    assert DirDone(plan, {}, unlinks, before, now, d) && Pooled(plan, {}, k);
    forall name, node
      ensures Stays(plan, {}, unlinks, d, name, node) <==>
              !(IsOrphan(name, node, plan[k].config.count) && unlinks(k)(name))
    {
    }
    assert now[d] == Opened(before, plan[k], unlinks(k));
  }

  /** The disk, the skipped mounts and the pools with their settings do not depend on the order in which
      the mounts were visited; between pools with directories of their own, neither do the inventories. */
  lemma DiscoveryIgnoresOrder(codec: Codec, plan: map<Path, Volume>, unlinks: Path -> string -> bool,
                              before: map<Path, Dir>, a: Stage, skippedA: map<Path, SkippedPool>,
                              b: Stage, skippedB: map<Path, SkippedPool>)
    requires Discovered(plan, {}, a.view, skippedA) && Discovered(plan, {}, b.view, skippedB)
    requires DiskDone(plan, {}, unlinks, before, a.dirs) && DiskDone(plan, {}, unlinks, before, b.dirs)
    ensures a.dirs == b.dirs && skippedA == skippedB && a.view.Keys == b.view.Keys
    ensures forall k :: k in a.view ==> a.view[k].(inventory := []) == b.view[k].(inventory := [])
    ensures InStep(codec, a.view, a.dirs) && InStep(codec, b.view, b.dirs) ==> a == b
  {
    forall d
      ensures Found(a.dirs, d) == Found(b.dirs, d)
    {
      SameDirDone(plan, unlinks, before, a.dirs, b.dirs, d);
    }
    SameFound(a.dirs, b.dirs);
    SamePools(plan, a.view, skippedA, b.view, skippedB);
  }

  lemma SameDirDone(plan: map<Path, Volume>, unlinks: Path -> string -> bool,
                    before: map<Path, Dir>, a: map<Path, Dir>, b: map<Path, Dir>, d: Path)
    requires DiskDone(plan, {}, unlinks, before, a) && DiskDone(plan, {}, unlinks, before, b)
    ensures Found(a, d) == Found(b, d)
  {
    assert DirDone(plan, {}, unlinks, before, a, d) && DirDone(plan, {}, unlinks, before, b, d);
    if IsPoolDir(plan, {}, d) {
      assert a[d] == b[d];
    }
  }

  lemma SamePools(plan: map<Path, Volume>, a: map<Path, PoolView>, skippedA: map<Path, SkippedPool>,
                  b: map<Path, PoolView>, skippedB: map<Path, SkippedPool>)
    requires Discovered(plan, {}, a, skippedA) && Discovered(plan, {}, b, skippedB)
    ensures skippedA == skippedB && a.Keys == b.Keys
    ensures forall k :: k in a ==> a[k] == b[k].(inventory := a[k].inventory)
  {
    forall k | k in plan && plan[k].reason == None
      ensures k in a && k in b && a[k] == b[k].(inventory := a[k].inventory)
    {
      assert a[k] == Foreseen(plan[k], a[k].inventory) && b[k] == Foreseen(plan[k], b[k].inventory);
    }
  }

  lemma SameFound(a: map<Path, Dir>, b: map<Path, Dir>)
    requires forall d :: Found(a, d) == Found(b, d)
    ensures a == b
  {
    assert forall d :: d in a <==> Found(a, d).Some?;
    assert forall d :: d in b <==> Found(b, d).Some?;
    assert forall d :: d in a ==> Some(a[d]) == Found(a, d) == Found(b, d);
  }

  /** Discovery partitions the mounts of the watched paths into pools and skipped ones: exactly the
      suitable ones get a pool, and a pool is forced to random data unless its file system is known to
      reserve blocks; copy-on-write and unknown ones always are. */
  lemma PoolsAreSuitable(config: BallastConfig, watched: seq<Path>, mounts: seq<MountPoint>, platform: Platform,
                         configured: Option<Path>, view: map<Path, PoolView>, skipped: map<Path, SkippedPool>, k: Path)
    requires AllNormal(mounts)
    requires Discovered(MakePlan(config, watched, mounts, platform, configured), {}, view, skipped)
    ensures k in view || k in skipped <==> Watched(k, watched, mounts)
    ensures !(k in view && k in skipped)
    ensures var mount := LastEntry(k, mounts);
            var dir := PoolDir(k, configured, mounts, SeenMounts(watched, mounts).Keys);
            && (k in view <==>
                 Watched(k, watched, mounts) && mount.Some? && Suitable(config, platform, mount.value, dir))
            && (k in view ==>
                 view[k].dir == dir && view[k].skipFallocate == (mount.value.fsType !in FALLOCATE_FRIENDLY))
  {
    SeenMountsAreOwners(watched, mounts);
    if Watched(k, watched, mounts) {
      SeenMountIsPlanned(config, watched, mounts, platform, configured, view, skipped, k);
    }
  }

  lemma SeenMountIsPlanned(config: BallastConfig, watched: seq<Path>, mounts: seq<MountPoint>, platform: Platform,
                           configured: Option<Path>, view: map<Path, PoolView>, skipped: map<Path, SkippedPool>,
                           k: Path)
    requires k in SeenMounts(watched, mounts)
    requires Discovered(MakePlan(config, watched, mounts, platform, configured), {}, view, skipped)
    ensures var seen := SeenMounts(watched, mounts);
            && (k in view <==> Suitable(config, platform, seen[k], PoolDir(k, configured, mounts, seen.Keys)))
            && (k in view ==> view[k].dir == PoolDir(k, configured, mounts, seen.Keys)
                              && view[k].skipFallocate == (seen[k].fsType !in FALLOCATE_FRIENDLY))
  {
    var plan, seen := MakePlan(config, watched, mounts, platform, configured), SeenMounts(watched, mounts);
    var dir := PoolDir(k, configured, mounts, seen.Keys);
    assert k in plan && plan[k] == PlanVolume(config, platform, seen[k], dir);
    PlannedIffSuitable(config, platform, seen[k], dir);
    assert k in view ==> view[k] == Foreseen(plan[k], view[k].inventory);
  }

  lemma PlannedIffSuitable(config: BallastConfig, platform: Platform, mount: MountPoint, dir: Path)
    ensures var v := PlanVolume(config, platform, mount, dir);
            && (v.reason == None <==> Suitable(config, platform, mount, dir))
            && (v.reason == None ==> (v.strategy == RandomData <==> mount.fsType !in FALLOCATE_FRIENDLY))
  {
  }

  // ---------- bulk operations over all pools ----------

  /** What a bulk provision makes of one pool's directory. */
  function Provisioned(codec: Codec, p: PoolView, v: VolumeFate, dir: Dir): Fill
    requires v.stats.Some?
  {
    Pass(Job(codec, p.config, p.skipFallocate, true, v.fate, v.orphanUnlink, v.orphanGain), false, dir, v.stats.value)
  }

  /** One volume of a bulk provision: its pool as its own answers make it, whatever happened on the
      others, or untouched with the reason. */
  ghost predicate VolumeDone(codec: Codec, v: VolumeFate, p0: PoolView, dir0: Dir,
                             p: PoolView, dir: Dir, result: VolumeResult)
  {
    match Preflight(v)
    case Some(reason) => p == p0 && dir == dir0 && result == PassedOver(reason)
    case None =>
      var out := Provisioned(codec, p0, v, dir0);
      dir == out.dir && p == Rescanned(codec, p0, out.dir) && result == Provided(out.report)
  }

  /** A judgement on one volume: its pool, its directory, and what was reported for it. */
  type Judgement = (Path, PoolView, Dir, VolumeResult) -> bool

  ghost function BulkJudgement(codec: Codec, fates: Path -> VolumeFate, start: Stage): Judgement {
    (k, p, dir, result) =>
      k in start.view && start.view[k].dir in start.dirs
      && VolumeDone(codec, fates(k), start.view[k], start.dirs[start.view[k].dir], p, dir, result)
  }

  /** One volume of a configuration update: its own settings, its directory pruned, a fresh inventory. */
  ghost predicate VolumeUpdated(codec: Codec, own: Config, unlink: string -> bool, p0: PoolView, dir0: Dir,
                                p: PoolView, dir: Dir)
  {
    dir == Prune(dir0, own.count, unlink) && p == Rescanned(codec, p0.(config := own), dir)
  }

  ghost function UpdateJudgement(codec: Codec, config: BallastConfig, unlink: Path -> string -> bool,
                                 start: Stage): Judgement
  {
    (k, p, dir, result) =>
      && k in start.view && start.view[k].dir in start.dirs
      && VolumeUpdated(codec, PerVolume(config, k), unlink(k), start.view[k], start.dirs[start.view[k].dir], p, dir)
      && result == Reconfigured
  }

  /** Pools and directories, between which a bulk operation moves one volume at a time. */
  datatype Stage = Stage(view: map<Path, PoolView>, dirs: map<Path, Dir>)
  {
    ghost predicate SameShape(start: Stage) {
      && view.Keys == start.view.Keys && dirs.Keys == start.dirs.Keys
      && forall k :: k in start.view ==> view[k].dir == start.view[k].dir && start.view[k].dir in start.dirs
    }

    /** Directories of no pool are as they were. */
    ghost predicate Framed(start: Stage) {
      && SameShape(start)
      && forall d :: d in start.dirs && (forall k :: k in start.view ==> start.view[k].dir != d) ==>
           dirs[d] == start.dirs[d]
    }

    /** Volumes still to come are as they were. */
    ghost predicate Untouched(start: Stage, remaining: set<Path>)
      requires SameShape(start)
    {
      forall k :: k in start.view && k in remaining ==>
        view[k] == start.view[k] && dirs[view[k].dir] == start.dirs[view[k].dir]
    }

    function With(key: Path, p: PoolView, dir: Dir): Stage {
      Stage(view[key := p], dirs[p.dir := dir])
    }
  }

  /** A bulk operation done except for the volumes in `remaining`. */
  ghost predicate BulkState(judge: Judgement, remaining: set<Path>, start: Stage, now: Stage,
                            results: map<Path, VolumeResult>)
  {
    && now.Framed(start) && now.Untouched(start, remaining)
    && results.Keys == start.view.Keys - remaining
    && Judged(judge, now, results)
  }

  lemma FrameAdvances(start: Stage, now: Stage, key: Path, p: PoolView, dir: Dir)
    requires now.Framed(start) && key in start.view && p.dir == start.view[key].dir
    ensures now.With(key, p, dir).Framed(start)
  {
  }

  lemma StageAdvances(remaining: set<Path>, start: Stage, now: Stage, key: Path, p: PoolView, dir: Dir)
    requires Isolated(start.view) && key in start.view && p.dir == start.view[key].dir
    requires now.Framed(start) && now.Untouched(start, remaining)
    ensures var next := now.With(key, p, dir);
            && next.Framed(start) && next.Untouched(start, remaining - {key})
            && forall k :: k in start.view && k != key ==>
                 next.view[k] == now.view[k] && next.dirs[next.view[k].dir] == now.dirs[now.view[k].dir]
  {
    FrameAdvances(start, now, key, p, dir);
  }

  lemma BulkAdvances(judge: Judgement, remaining: set<Path>, start: Stage, now: Stage,
                     results: map<Path, VolumeResult>, key: Path, p: PoolView, dir: Dir, result: VolumeResult)
    requires Isolated(start.view) && key in remaining && key in start.view
    requires BulkState(judge, remaining, start, now, results)
    requires p.dir == start.view[key].dir && judge(key, p, dir, result)
    ensures BulkState(judge, remaining - {key}, start, now.With(key, p, dir), results[key := result])
  {
    StageAdvances(remaining, start, now, key, p, dir);
    JudgedAdvances(judge, now, now.With(key, p, dir), results, key, result);
  }

  /** A bulk operation done except for the volumes in `remaining`; without isolation, only that nothing
      but pool directories changed is certain. */
  ghost predicate Progress(judge: Judgement, remaining: set<Path>, start: Stage, now: Stage,
                           results: map<Path, VolumeResult>)
  {
    now.Framed(start) && (Isolated(start.view) ==> BulkState(judge, remaining, start, now, results))
  }

  /** A bulk provision done except for the volumes in `remaining`. */
  ghost predicate ProvisionState(codec: Codec, fates: Path -> VolumeFate, remaining: set<Path>,
                                 start: Stage, now: Stage, results: map<Path, VolumeResult>)
  {
    Progress(BulkJudgement(codec, fates, start), remaining, start, now, results)
  }

  /** A property of a bulk operation under way. */
  type Invariant = (set<Path>, Stage, map<Path, VolumeResult>) -> bool

  /** The round of any volume keeps the property. */
  ghost predicate ProvisionKeeps(inv: Invariant, codec: Codec, fates: Path -> VolumeFate) {
    forall remaining, now, results, key, p: PoolView, dir, result ::
      inv(remaining, now, results) && key in remaining && key in now.view && now.view[key].dir in now.dirs
      && p.dir == now.view[key].dir
      && VolumeDone(codec, fates(key), now.view[key], now.dirs[now.view[key].dir], p, dir, result) ==>
        inv(remaining - {key}, now.With(key, p, dir), results[key := result])
  }

  ghost predicate UpdateKeeps(inv: Invariant, codec: Codec, config: BallastConfig, unlink: Path -> string -> bool) {
    forall remaining, now, results, key, p, dir ::
      inv(remaining, now, results) && key in remaining && key in now.view && now.view[key].dir in now.dirs
      && VolumeUpdated(codec, PerVolume(config, key), unlink(key),
                       now.view[key], now.dirs[now.view[key].dir], p, dir) ==>
        inv(remaining - {key}, now.With(key, p, dir), results[key := Reconfigured])
  }

  ghost function ProvisionInvariant(codec: Codec, fates: Path -> VolumeFate, start: Stage): Invariant {
    (remaining, now, results) => ProvisionState(codec, fates, remaining, start, now, results)
  }

  ghost function UpdateInvariant(codec: Codec, config: BallastConfig, unlink: Path -> string -> bool,
                                 start: Stage): Invariant
  {
    (remaining, now, results) => UpdateState(codec, config, unlink, remaining, start, now, results)
  }

  lemma AcceptedByBulk(codec: Codec, fates: Path -> VolumeFate, start: Stage, key: Path,
                       p: PoolView, dir: Dir, result: VolumeResult)
    requires key in start.view && start.view[key].dir in start.dirs
    requires VolumeDone(codec, fates(key), start.view[key], start.dirs[start.view[key].dir], p, dir, result)
    ensures BulkJudgement(codec, fates, start)(key, p, dir, result)
  {
  }

  lemma ProvisionAdvances(codec: Codec, fates: Path -> VolumeFate, remaining: set<Path>, start: Stage, now: Stage,
                          results: map<Path, VolumeResult>, key: Path, p: PoolView, dir: Dir, result: VolumeResult)
    requires ProvisionState(codec, fates, remaining, start, now, results)
    requires key in remaining && key in now.view && now.view[key].dir in now.dirs && p.dir == now.view[key].dir
    requires VolumeDone(codec, fates(key), now.view[key], now.dirs[now.view[key].dir], p, dir, result)
    ensures ProvisionState(codec, fates, remaining - {key}, start, now.With(key, p, dir), results[key := result])
  {
    if Isolated(start.view) {
      assert now.view[key] == start.view[key] && now.dirs[now.view[key].dir] == start.dirs[start.view[key].dir];
      AcceptedByBulk(codec, fates, start, key, p, dir, result);
    }
    ProgressAdvances(BulkJudgement(codec, fates, start), remaining, start, now, results, key, p, dir, result);
  }

  lemma ProvisionInvariantKept(codec: Codec, fates: Path -> VolumeFate, start: Stage)
    requires forall k :: k in start.view ==> start.view[k].dir in start.dirs
    ensures ProvisionInvariant(codec, fates, start)(start.view.Keys, start, map[])
    ensures ProvisionKeeps(ProvisionInvariant(codec, fates, start), codec, fates)
  {
    var inv := ProvisionInvariant(codec, fates, start);
    BulkBegins(BulkJudgement(codec, fates, start), start);
    forall remaining, now, results, key, p: PoolView, dir, result |
      inv(remaining, now, results) && key in remaining && key in now.view && now.view[key].dir in now.dirs
      && p.dir == now.view[key].dir
      && VolumeDone(codec, fates(key), now.view[key], now.dirs[now.view[key].dir], p, dir, result)
      ensures inv(remaining - {key}, now.With(key, p, dir), results[key := result])
    {
      ProvisionAdvances(codec, fates, remaining, start, now, results, key, p, dir, result);
    }
  }

  lemma UpdateInvariantKept(codec: Codec, config: BallastConfig, unlink: Path -> string -> bool, start: Stage)
    requires forall k :: k in start.view ==> start.view[k].dir in start.dirs
    ensures UpdateInvariant(codec, config, unlink, start)(start.view.Keys, start, map[])
    ensures UpdateKeeps(UpdateInvariant(codec, config, unlink, start), codec, config, unlink)
  {
    var inv := UpdateInvariant(codec, config, unlink, start);
    BulkBegins(UpdateJudgement(codec, config, unlink, start), start);
    forall remaining, now, results, key, p, dir |
      inv(remaining, now, results) && key in remaining && key in now.view && now.view[key].dir in now.dirs
      && VolumeUpdated(codec, PerVolume(config, key), unlink(key), now.view[key], now.dirs[now.view[key].dir], p, dir)
      ensures inv(remaining - {key}, now.With(key, p, dir), results[key := Reconfigured])
    {
      UpdateAdvances(codec, config, unlink, remaining, start, now, results, key, p, dir);
    }
  }

  /** Before the first volume. */
  lemma BulkBegins(judge: Judgement, start: Stage)
    requires forall k :: k in start.view ==> start.view[k].dir in start.dirs
    ensures start.Framed(start) && BulkState(judge, start.view.Keys, start, start, map[])
  {
  }

  lemma ProgressAdvances(judge: Judgement, remaining: set<Path>, start: Stage, now: Stage,
                         results: map<Path, VolumeResult>, key: Path, p: PoolView, dir: Dir, result: VolumeResult)
    requires Progress(judge, remaining, start, now, results)
    requires key in remaining && key in start.view && p.dir == now.view[key].dir
    requires Isolated(start.view) ==> judge(key, p, dir, result)
    ensures Progress(judge, remaining - {key}, start, now.With(key, p, dir), results[key := result])
  {
    FrameAdvances(start, now, key, p, dir);
    if Isolated(start.view) {
      BulkAdvances(judge, remaining, start, now, results, key, p, dir, result);
    }
  }

  /** A configuration update done except for the volumes in `remaining`; without isolation, the settings
      are certain, and that nothing but pool directories changed. */
  ghost predicate UpdateState(codec: Codec, config: BallastConfig, unlink: Path -> string -> bool,
                              remaining: set<Path>, start: Stage, now: Stage, results: map<Path, VolumeResult>)
  {
    && now.Framed(start) && Configured(config, now.view, remaining)
    && (Isolated(start.view) ==>
         BulkState(UpdateJudgement(codec, config, unlink, start), remaining, start, now, results))
  }

  lemma UpdateAdvances(codec: Codec, config: BallastConfig, unlink: Path -> string -> bool, remaining: set<Path>,
                       start: Stage, now: Stage, results: map<Path, VolumeResult>, key: Path, p: PoolView, dir: Dir)
    requires UpdateState(codec, config, unlink, remaining, start, now, results)
    requires key in remaining && key in start.view
    requires VolumeUpdated(codec, PerVolume(config, key), unlink(key),
                           now.view[key], now.dirs[now.view[key].dir], p, dir)
    ensures UpdateState(codec, config, unlink, remaining - {key}, start, now.With(key, p, dir),
                        results[key := Reconfigured])
  {
    FrameAdvances(start, now, key, p, dir);
    if Isolated(start.view) {
      BulkAdvances(UpdateJudgement(codec, config, unlink, start), remaining, start, now, results, key, p, dir,
                   Reconfigured);
    }
  }

  /** Every volume reported on so far is as judged. */
  ghost predicate Judged(judge: Judgement, now: Stage, results: map<Path, VolumeResult>) {
    forall k :: k in results ==>
      k in now.view && now.view[k].dir in now.dirs && judge(k, now.view[k], now.dirs[now.view[k].dir], results[k])
  }

  lemma JudgedAdvances(judge: Judgement, now: Stage, next: Stage, results: map<Path, VolumeResult>,
                       key: Path, result: VolumeResult)
    requires Judged(judge, now, results)
    requires forall k :: k in results && k != key ==>
      k in next.view && next.view[k] == now.view[k] && next.view[k].dir in next.dirs
      && next.dirs[next.view[k].dir] == now.dirs[now.view[k].dir]
    requires key in next.view && next.view[key].dir in next.dirs
    requires judge(key, next.view[key], next.dirs[next.view[key].dir], result)
    ensures Judged(judge, next, results[key := result])
  {
  }

  /** A judgement that leaves no choice: a volume's outcome is determined by where it started. */
  ghost predicate Decisive(judge: Judgement) {
    forall k, p, dir, result, p1, dir1, result1 ::
      judge(k, p, dir, result) && judge(k, p1, dir1, result1) ==> p == p1 && dir == dir1 && result == result1
  }

  lemma BulkJudgementsAreDecisive(codec: Codec, fates: Path -> VolumeFate, config: BallastConfig,
                                  unlink: Path -> string -> bool, start: Stage)
    ensures Decisive(BulkJudgement(codec, fates, start))
    ensures Decisive(UpdateJudgement(codec, config, unlink, start))
  {
  }

  lemma SameOutcome(judge: Judgement, start: Stage, a: Stage, ra: map<Path, VolumeResult>,
                    b: Stage, rb: map<Path, VolumeResult>, k: Path)
    requires Decisive(judge) && k in start.view
    requires BulkState(judge, {}, start, a, ra) && BulkState(judge, {}, start, b, rb)
    ensures k in ra && k in rb && ra[k] == rb[k] && a.view[k] == b.view[k]
    ensures a.dirs[start.view[k].dir] == b.dirs[start.view[k].dir]
  {
    assert k in ra && k in rb;
    assert judge(k, a.view[k], a.dirs[a.view[k].dir], ra[k]);
    assert judge(k, b.view[k], b.dirs[b.view[k].dir], rb[k]);
  }

  lemma SameDir(judge: Judgement, start: Stage, a: Stage, ra: map<Path, VolumeResult>,
                b: Stage, rb: map<Path, VolumeResult>, d: Path)
    requires Decisive(judge) && d in start.dirs
    requires BulkState(judge, {}, start, a, ra) && BulkState(judge, {}, start, b, rb)
    ensures a.dirs[d] == b.dirs[d]
  {
    if k :| k in start.view && start.view[k].dir == d {
      SameOutcome(judge, start, a, ra, b, rb, k);
    }
  }

  lemma BulkResultIsUnique(judge: Judgement, start: Stage, a: Stage, ra: map<Path, VolumeResult>,
                           b: Stage, rb: map<Path, VolumeResult>)
    requires Decisive(judge)
    requires BulkState(judge, {}, start, a, ra) && BulkState(judge, {}, start, b, rb)
    ensures a == b && ra == rb
  {
    assert ra == rb && a.view == b.view by {
      forall k | k in start.view
        ensures k in ra && k in rb && ra[k] == rb[k] && a.view[k] == b.view[k]
      {
        SameOutcome(judge, start, a, ra, b, rb, k);
      }
    }
    assert a.dirs == b.dirs by {
      forall d | d in start.dirs
        ensures a.dirs[d] == b.dirs[d]
      {
        SameDir(judge, start, a, ra, b, rb, d);
      }
    }
  }

  /** The results of a bulk provision and of a configuration update do not depend on the order in
      which the pools were visited. */
  lemma BulkIgnoresOrder(codec: Codec, fates: Path -> VolumeFate, config: BallastConfig, unlink: Path -> string -> bool,
                         start: Stage, a: Stage, ra: map<Path, VolumeResult>, b: Stage, rb: map<Path, VolumeResult>)
    ensures var judge := BulkJudgement(codec, fates, start);
            BulkState(judge, {}, start, a, ra) && BulkState(judge, {}, start, b, rb) ==> a == b && ra == rb
    ensures var judge := UpdateJudgement(codec, config, unlink, start);
            BulkState(judge, {}, start, a, ra) && BulkState(judge, {}, start, b, rb) ==> a == b && ra == rb
  {
    var provision, update := BulkJudgement(codec, fates, start), UpdateJudgement(codec, config, unlink, start);
    BulkJudgementsAreDecisive(codec, fates, config, unlink, start);
    if BulkState(provision, {}, start, a, ra) && BulkState(provision, {}, start, b, rb) {
      BulkResultIsUnique(provision, start, a, ra, b, rb);
    }
    if BulkState(update, {}, start, a, ra) && BulkState(update, {}, start, b, rb) {
      BulkResultIsUnique(update, start, a, ra, b, rb);
    }
  }

  /** Every pool not in `remaining` has its own settings. */
  ghost predicate Configured(config: BallastConfig, view: map<Path, PoolView>, remaining: set<Path>) {
    forall k :: k in view && k !in remaining ==> view[k].config == PerVolume(config, k)
  }

  /** The pool discovery builds from a plan entry. */
  function Foreseen(v: Volume, inventory: seq<BallastFile>): PoolView {
    PoolView(v.dir, v.fsType, v.strategy, v.config, v.strategy == RandomData, inventory)
  }

  function Rejected(v: Volume): SkippedPool
    requires v.reason.Some?
  {
    SkippedPool(v.dir, v.fsType, v.strategy, v.reason.value)
  }

  /** Discovery done except for `remaining`: each other planned mount is in exactly one of the two
      maps, as the plan says. */
  ghost predicate Discovered(plan: map<Path, Volume>, remaining: set<Path>,
                             view: map<Path, PoolView>, skipped: map<Path, SkippedPool>)
  {
    && (forall k :: k in view <==> k in plan && k !in remaining && plan[k].reason == None)
    && (forall k :: k in view ==> view[k] == Foreseen(plan[k], view[k].inventory))
    && (forall k :: k in skipped <==> k in plan && k !in remaining && plan[k].reason.Some?)
    && (forall k :: k in skipped ==> skipped[k] == Rejected(plan[k]))
  }

  // ---------- the coordinator ----------

  /** Every pool has its own manager, working on the pool's directory of the shared file system. */
  ghost predicate Wired(pools: map<Path, BallastPool>, fs: FileSystem, codec: Codec) {
    && (forall k :: k in pools ==>
         && pools[k].mount == k
         && pools[k].manager.fs == fs && pools[k].manager.dir == pools[k].dir
         && pools[k].manager.codec == codec)
    && (forall j, k :: j in pools && k in pools && j != k ==> pools[j].manager != pools[k].manager)
  }

  ghost function ManagersOf(pools: map<Path, BallastPool>): set<BallastManager> {
    set k | k in pools :: pools[k].manager
  }

  /** A pool with a manager of its own joins. */
  lemma WiredWith(pools: map<Path, BallastPool>, fs: FileSystem, codec: Codec, pool: BallastPool)
    requires Wired(pools, fs, codec) && pool.mount !in pools && pool.manager !in ManagersOf(pools)
    requires pool.manager.fs == fs && pool.manager.dir == pool.dir && pool.manager.codec == codec
    ensures Wired(pools[pool.mount := pool], fs, codec)
    ensures ManagersOf(pools[pool.mount := pool]) == ManagersOf(pools) + {pool.manager}
  {
    forall k | k in pools
      ensures pools[k].manager != pool.manager
    {
      assert pools[k].manager in ManagersOf(pools);
    }
    var more := pools[pool.mount := pool];
    assert more[pool.mount] == pool;
    assert forall k :: k in pools ==> more[k] == pools[k];
  }

  class BallastPoolCoordinator {
    const fs: FileSystem
    const codec: Codec
    var pools: map<Path, BallastPool>
    var skipped: map<Path, SkippedPool>

    ghost predicate Valid()
      reads this, fs
    {
      Wired(pools, fs, codec) && forall k :: k in pools ==> pools[k].dir in fs.dirs
    }

    ghost function Managers(): set<BallastManager>
      reads this
    {
      ManagersOf(pools)
    }

    ghost function ManagerOf(mount: Path): set<BallastManager>
      reads this
    {
      if mount in pools then {pools[mount].manager} else {}
    }

    ghost function ViewOf(pool: BallastPool): PoolView
      reads pool.manager
    {
      PoolView(pool.dir, pool.fsType, pool.strategy,
               pool.manager.config, pool.manager.skipFallocate, pool.manager.inventory)
    }

    ghost function View(): map<Path, PoolView>
      reads this, Managers()
    {
      map k | k in pools :: ViewOf(pools[k])
    }

    ghost function Now(): Stage
      reads this, fs, Managers()
    {
      Stage(View(), fs.dirs)
    }

    /** Discovery, from the watched paths and the mount table. */
    constructor DiscoverInner(fs: FileSystem, codec: Codec, config: BallastConfig, watched: seq<Path>,
                              mounts: seq<MountPoint>, platform: Platform, configured: Option<Path>,
                              orphanUnlink: Path -> string -> bool)
      modifies fs
      ensures this.fs == fs && this.codec == codec && Valid() && fresh(Managers())
      ensures Discovered(MakePlan(config, watched, mounts, platform, configured), {}, View(), skipped)
      ensures DiskDone(MakePlan(config, watched, mounts, platform, configured), {}, orphanUnlink, old(fs.dirs), fs.dirs)
      ensures Separate(MakePlan(config, watched, mounts, platform, configured)) ==>
        Isolated(View()) && InStep(codec, View(), fs.dirs)
    {
      this.fs := fs;
      this.codec := codec;
      pools := map[];
      skipped := map[];
      new;
      var seen := CollectSeenMounts(watched, mounts);
      var plan := PlanFor(config, seen, mounts, platform, configured);
      DiscoverAll(plan, orphanUnlink);
    }

    /** Every monitored mount ends up, in whatever order they are visited, either with a pool built as
        planned or among the skipped ones with the reason of the plan. */
    method DiscoverAll(plan: map<Path, Volume>, orphanUnlink: Path -> string -> bool)
      requires Valid() && pools == map[] && skipped == map[]
      modifies this, fs
      ensures Valid() && fresh(Managers())
      ensures Discovered(plan, {}, View(), skipped)
      ensures DiskDone(plan, {}, orphanUnlink, old(fs.dirs), fs.dirs)
      ensures Separate(plan) ==> Isolated(View()) && InStep(codec, View(), fs.dirs)
    {
      var remaining := plan.Keys;
      while remaining != {}
        invariant remaining <= plan.Keys
        invariant Valid() && fresh(Managers())
        invariant Discovered(plan, remaining, View(), skipped)
        invariant DiskDone(plan, remaining, orphanUnlink, old(fs.dirs), fs.dirs)
        invariant Separate(plan) ==> InStep(codec, View(), fs.dirs)
        decreases remaining
      {
        var key :| key in remaining;
        DiskAdvances(plan, remaining, orphanUnlink, old(fs.dirs), fs.dirs, key);
        DiscoverOne(plan, remaining, key, orphanUnlink(key));
        remaining := remaining - {key};
      }
    }

    /** Visits one monitored mount. */
    method DiscoverOne(plan: map<Path, Volume>, ghost remaining: set<Path>, key: Path, orphanUnlink: string -> bool)
      requires Valid() && remaining <= plan.Keys && key in remaining
      requires Discovered(plan, remaining, View(), skipped)
      modifies this, fs
      ensures Valid() && fresh(Managers() - old(Managers()))
      ensures Discovered(plan, remaining - {key}, View(), skipped)
      ensures fs.dirs == Visited(old(fs.dirs), plan[key], orphanUnlink)
      ensures Separate(plan) && InStep(codec, old(View()), old(fs.dirs)) ==> InStep(codec, View(), fs.dirs)
    {
      if plan[key].reason.Some? {
        SkipMount(plan, remaining, key);
      } else {
        JoinPool(plan, remaining, key, orphanUnlink);
      }
    }

    method SkipMount(plan: map<Path, Volume>, ghost remaining: set<Path>, key: Path)
      requires Valid() && key in remaining && key in plan && plan[key].reason.Some?
      requires Discovered(plan, remaining, View(), skipped)
      modifies this`skipped
      ensures Valid() && Managers() == old(Managers()) && View() == old(View())
      ensures Discovered(plan, remaining - {key}, View(), skipped)
    {
      skipped := skipped[key := Rejected(plan[key])];
    }

    method JoinPool(plan: map<Path, Volume>, ghost remaining: set<Path>, key: Path, orphanUnlink: string -> bool)
      requires Valid() && key in remaining && key in plan && plan[key].reason == None
      requires Discovered(plan, remaining, View(), skipped)
      modifies this`pools, fs
      ensures Valid() && fresh(Managers() - old(Managers()))
      ensures Discovered(plan, remaining - {key}, View(), skipped)
      ensures fs.dirs == Visited(old(fs.dirs), plan[key], orphanUnlink)
      ensures Separate(plan) && InStep(codec, old(View()), old(fs.dirs)) ==> InStep(codec, View(), fs.dirs)
    {
      var pool := OpenPool(key, plan[key], orphanUnlink);
      PoolJoins(codec, plan, remaining, View(), skipped, old(fs.dirs), key, fs.dirs[pool.dir]);
      AddPool(pool);
    }

    method AddPool(pool: BallastPool)
      requires Valid() && pool.mount !in pools && pool.manager !in Managers()
      requires pool.manager.fs == fs && pool.manager.dir == pool.dir && pool.manager.codec == codec
      requires pool.dir in fs.dirs
      modifies this`pools
      ensures Valid() && View() == old(View())[pool.mount := ViewOf(pool)]
      ensures Managers() == old(Managers()) + {pool.manager}
    {
      WiredWith(pools, fs, codec, pool);
      pools := pools[pool.mount := pool];
      ViewWith(pool);
    }

    twostate lemma ViewWith(pool: BallastPool)
      requires pools == old(pools)[pool.mount := pool]
      requires forall k :: k in old(pools) ==> unchanged(old(pools)[k].manager)
      ensures View() == old(View())[pool.mount := ViewOf(pool)]
    {
    }

    /** Opens the pool a plan entry foresees. */
    method OpenPool(key: Path, v: Volume, orphanUnlink: string -> bool) returns (pool: BallastPool)
      modifies fs
      ensures fresh(pool.manager) && pool.mount == key && pool.dir == v.dir
      ensures pool.manager.fs == fs && pool.manager.dir == v.dir && pool.manager.codec == codec
      ensures fs.dirs == old(fs.dirs)[v.dir := Opened(old(fs.dirs), v, orphanUnlink)]
      ensures View() == old(View())
      ensures ViewOf(pool) == Foreseen(v, Scan(codec, fs.dirs[v.dir], v.config))
    {
      var manager := new BallastManager(fs, v.dir, codec, v.config, orphanUnlink);
      if v.strategy == RandomData {
        manager.SetSkipFallocate(true);
      }
      pool := BallastPool(key, v.dir, v.fsType, v.strategy, manager);
    }

    twostate lemma OnlyManagerChanged(mount: Path)
      requires mount in pools && pools == old(pools)
      requires forall k :: k in pools && k != mount ==> unchanged(pools[k].manager)
      ensures View() == old(View())[mount := ViewOf(pools[mount])]
    {
    }

    /** Releases files of the pool on exactly this mount. */
    method ReleaseForMount(mount: Path, locked: bool, count: nat, unlink: nat -> bool)
      returns (r: Reply<ReleaseReport>)
      requires Valid()
      modifies fs, ManagerOf(mount)`inventory
      ensures Valid()
      ensures r.NothingThere? <==> mount !in old(View()) || old(View())[mount].inventory == []
      ensures r.LockFailed? <==> !r.NothingThere? && !locked
      ensures !r.Reported? ==> View() == old(View()) && fs.dirs == old(fs.dirs)
      ensures r.Reported? ==>
        && mount in pools
        && var p := old(View())[mount];
        && var (after, report) := Release(old(fs.dirs)[p.dir], p.inventory, count, unlink);
        && r.value == report
        && View() == old(View())[mount := Rescanned(codec, p, after)]
        && fs.dirs == old(fs.dirs)[p.dir := after]
    {
      if mount !in pools {
        return NothingThere;
      }
      var manager := pools[mount].manager;
      if manager.AvailableCount() == 0 {
        return NothingThere;
      }
      var report := manager.Release(locked, count, unlink);
      OnlyManagerChanged(mount);
      if report.None? {
        assert ViewOf(pools[mount]) == old(ViewOf(pools[mount]));
        return LockFailed;
      }
      r := Reported(report.value);
    }

    /** Resolves a path to its mount first. */
    method ReleaseForPath(path: Path, mounts: seq<MountPoint>, locked: bool, count: nat, unlink: nat -> bool)
      returns (r: Reply<ReleaseReport>)
      requires Valid()
      modifies fs, (var m := FindMount(path, mounts); if m.Some? then ManagerOf(m.value.path) else {})`inventory
      ensures Valid()
      ensures r.NothingThere? <==>
        || FindMount(path, mounts).None?
        || var mount := FindMount(path, mounts).value.path;
           mount !in old(View()) || old(View())[mount].inventory == []
      ensures r.LockFailed? <==> !r.NothingThere? && !locked
      ensures !r.Reported? ==> View() == old(View()) && fs.dirs == old(fs.dirs)
      ensures r.Reported? ==>
        && FindMount(path, mounts).Some?
        && var mount := FindMount(path, mounts).value.path;
        && mount in pools
        && var p := old(View())[mount];
        && var (after, report) := Release(old(fs.dirs)[p.dir], p.inventory, count, unlink);
        && r.value == report
        && View() == old(View())[mount := Rescanned(codec, p, after)]
        && fs.dirs == old(fs.dirs)[p.dir := after]
    {
      var mount := FindMount(path, mounts);
      if mount.None? {
        return NothingThere;
      }
      r := ReleaseForMount(mount.value.path, locked, count, unlink);
    }

    /** Refills at most one file of the pool on exactly this mount. */
    method ReplenishForMount(mount: Path, locked: bool, checked: bool, fate: nat -> Fate,
                             orphanUnlink: string -> bool, orphanGain: nat, free: int)
      returns (r: Reply<ProvisionReport>)
      requires Valid()
      modifies fs, ManagerOf(mount)`inventory
      ensures Valid()
      ensures r.NothingThere? <==> mount !in pools
      ensures r.LockFailed? <==> !r.NothingThere? && !locked
      ensures !r.Reported? ==> View() == old(View()) && fs.dirs == old(fs.dirs)
      ensures r.Reported? ==>
        && mount in pools
        && var p := old(View())[mount];
        && var job := Job(codec, p.config, p.skipFallocate, checked, fate, orphanUnlink, orphanGain);
        && var out := Pass(job, true, old(fs.dirs)[p.dir], free);
        && r.value == out.report
        && View() == old(View())[mount := Rescanned(codec, p, out.dir)]
        && fs.dirs == old(fs.dirs)[p.dir := out.dir]
    {
      if mount !in pools {
        return NothingThere;
      }
      var manager := pools[mount].manager;
      var report, _ := manager.ReplenishOne(locked, checked, fate, orphanUnlink, orphanGain, free);
      OnlyManagerChanged(mount);
      if report.None? {
        assert ViewOf(pools[mount]) == old(ViewOf(pools[mount]));
        return LockFailed;
      }
      r := Reported(report.value);
    }

    /** One volume of a bulk provision. */
    method ProvisionVolume(mount: Path, v: VolumeFate) returns (result: VolumeResult)
      requires Valid() && mount in pools
      modifies fs, ManagerOf(mount)`inventory
      ensures Valid()
      ensures var p := old(View())[mount];
        && mount in View() && p.dir in fs.dirs && View()[mount].dir == p.dir
        && VolumeDone(codec, v, p, old(fs.dirs)[p.dir], View()[mount], fs.dirs[p.dir], result)
        && Now() == old(Now()).With(mount, View()[mount], fs.dirs[p.dir])
    {
      ghost var now := Now();
      if v.stats.None? {
        assert now == now.With(mount, now.view[mount], now.dirs[pools[mount].dir]);
        return PassedOver(StatsUnavailable);
      }
      if v.total == 0 || 5 * v.stats.value < v.total {
        assert now == now.With(mount, now.view[mount], now.dirs[pools[mount].dir]);
        return PassedOver(FreeSpaceTooLow);
      }
      var manager := pools[mount].manager;
      var r, room := manager.Provision(v.locked, true, v.fate, v.orphanUnlink, v.orphanGain, v.stats.value);
      OnlyManagerChanged(mount);
      if r.None? {
        assert ViewOf(pools[mount]) == old(ViewOf(pools[mount]));
      }
      result := if r.None? then PassedOver(ProvisionFailed) else Provided(r.value);
    }

    /** One round: keeps whatever a round keeps. */
    method ProvisionNext(fates: Path -> VolumeFate, key: Path, ghost inv: Invariant, ghost remaining: set<Path>,
                         ghost results: map<Path, VolumeResult>) returns (result: VolumeResult)
      requires Valid() && key in pools && key in remaining
      requires inv(remaining, Now(), results) && ProvisionKeeps(inv, codec, fates)
      modifies fs, ManagerOf(key)`inventory
      ensures Valid() && inv(remaining - {key}, Now(), results[key := result])
    {
      ghost var now := Now();
      assert key in now.view;
      result := ProvisionVolume(key, fates(key));
      assert inv(remaining - {key}, now.With(key, View()[key], fs.dirs[pools[key].dir]), results[key := result]);
    }

    /** The loop of a bulk provision: every pool, in any order. Whatever each round keeps holds at the end. */
    method ProvisionEach(fates: Path -> VolumeFate, ghost inv: Invariant) returns (results: map<Path, VolumeResult>)
      requires Valid() && inv(View().Keys, Now(), map[]) && ProvisionKeeps(inv, codec, fates)
      modifies fs, Managers()`inventory
      ensures Valid() && pools == old(pools) && inv({}, Now(), results)
    {
      results := map[];
      var remaining := pools.Keys;
      assert View().Keys == pools.Keys;
      while remaining != {}
        invariant Valid() && pools == old(pools) && remaining <= pools.Keys
        invariant inv(remaining, Now(), results)
        decreases remaining
      {
        var key :| key in remaining;
        var result := ProvisionNext(fates, key, inv, remaining, results);
        results := results[key := result];
        remaining := remaining - {key};
      }
    }

    /** Provisions every pool: between isolated pools the result for each volume depends on that volume
        alone. */
    method ProvisionAll(fates: Path -> VolumeFate) returns (results: map<Path, VolumeResult>)
      requires Valid()
      modifies fs, Managers()`inventory
      ensures Valid() && pools == old(pools)
      ensures ProvisionState(codec, fates, {}, old(Now()), Now(), results)
    {
      ProvisionInvariantKept(codec, fates, Now());
      results := ProvisionEach(fates, ProvisionInvariant(codec, fates, Now()));
    }

    /** One round: keeps whatever a round keeps. */
    method UpdateNext(config: BallastConfig, orphanUnlink: Path -> string -> bool, key: Path, ghost inv: Invariant,
                      ghost remaining: set<Path>, ghost results: map<Path, VolumeResult>)
      requires Valid() && key in pools && key in remaining
      requires inv(remaining, Now(), results) && UpdateKeeps(inv, codec, config, orphanUnlink)
      modifies fs, ManagerOf(key)
      ensures Valid() && inv(remaining - {key}, Now(), results[key := Reconfigured])
    {
      ghost var now := Now();
      assert key in now.view;
      UpdateVolume(key, PerVolume(config, key), orphanUnlink(key));
      assert inv(remaining - {key}, now.With(key, View()[key], fs.dirs[pools[key].dir]),
                 results[key := Reconfigured]);
    }

    /** The loop of a configuration update. */
    method UpdateEach(config: BallastConfig, orphanUnlink: Path -> string -> bool, ghost inv: Invariant)
      returns (ghost results: map<Path, VolumeResult>)
      requires Valid() && inv(View().Keys, Now(), map[]) && UpdateKeeps(inv, codec, config, orphanUnlink)
      modifies fs, Managers()
      ensures Valid() && pools == old(pools) && inv({}, Now(), results)
    {
      results := map[];
      var remaining := pools.Keys;
      assert View().Keys == pools.Keys;
      while remaining != {}
        invariant Valid() && pools == old(pools) && remaining <= pools.Keys
        invariant inv(remaining, Now(), results)
        decreases remaining
      {
        var key :| key in remaining;
        UpdateNext(config, orphanUnlink, key, inv, remaining, results);
        results := results[key := Reconfigured];
        remaining := remaining - {key};
      }
    }

    /** Applies a new configuration to every pool: each gets its own settings, and between isolated pools
        nothing else of one depends on another. */
    method UpdateConfig(config: BallastConfig, orphanUnlink: Path -> string -> bool)
      returns (ghost results: map<Path, VolumeResult>)
      requires Valid()
      modifies fs, Managers()
      ensures Valid() && pools == old(pools)
      ensures UpdateState(codec, config, orphanUnlink, {}, old(Now()), Now(), results)
    {
      UpdateInvariantKept(codec, config, orphanUnlink, Now());
      results := UpdateEach(config, orphanUnlink, UpdateInvariant(codec, config, orphanUnlink, Now()));
    }

    method UpdateVolume(mount: Path, config: Config, orphanUnlink: string -> bool)
      requires Valid() && mount in pools
      modifies fs, ManagerOf(mount)
      ensures Valid()
      ensures var p := old(View())[mount];
        && mount in View() && p.dir in fs.dirs && View()[mount].dir == p.dir
        && VolumeUpdated(codec, config, orphanUnlink, p, old(fs.dirs)[p.dir], View()[mount], fs.dirs[p.dir])
        && Now() == old(Now()).With(mount, View()[mount], fs.dirs[p.dir])
    {
      pools[mount].manager.UpdateConfig(config, orphanUnlink);
      OnlyManagerChanged(mount);
    }

    /** Each pool's releasable bytes. */
    function Amounts(): (amounts: map<Path, nat>)
      reads this, Managers()
      ensures amounts == Releasables(View())
    {
      map k | k in pools :: pools[k].manager.ReleasableBytes()
    }

    /** The sum over all pools, in any order. */
    method ComputeTotal() returns (total: nat)
      ensures total == TotalReleasable(View())
    {
      ghost var view := View();
      var amounts := Amounts();
      total := SumValues(amounts);
      assert amounts == Releasables(view) && View() == view;
    }
  }
}
