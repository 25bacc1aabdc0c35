/** What a bulk provision and a configuration update make of each volume, in terms of what the platform
    answered about it. */
module Bulk {
  import opened Basics
  import opened Header
  import SlotNames
  import opened Pool
  import opened Accounting
  import opened Gradual
  import opened Mounts
  import opened Coordinator

  /** A volume is provisioned exactly when its statistics could be read, at least 20% of it is free, and
      its pool's lock was obtained. */
  predicate Eligible(v: VolumeFate) {
    v.stats.Some? && v.total > 0 && 100 * v.stats.value >= 20 * v.total && v.locked
  }

  /** Between isolated pools: which volumes a bulk provision serves, why it passes over the others, and
      that those stay as they were. */
  lemma ProvisionedIffEligible(codec: Codec, fates: Path -> VolumeFate, start: Stage, now: Stage,
                               results: map<Path, VolumeResult>, k: Path)
    requires ProvisionState(codec, fates, {}, start, now, results) && Isolated(start.view) && k in start.view
    ensures k in results && k in now.view && start.view[k].dir in start.dirs && start.view[k].dir in now.dirs
    ensures results[k].Provided? <==> Eligible(fates(k))
    ensures results[k] == PassedOver(StatsUnavailable) <==> fates(k).stats == None
    ensures results[k] == PassedOver(FreeSpaceTooLow) <==>
            fates(k).stats.Some? && (fates(k).total == 0 || 100 * fates(k).stats.value < 20 * fates(k).total)
    ensures results[k] == PassedOver(ProvisionFailed) <==>
            && fates(k).stats.Some? && fates(k).total > 0
            && 100 * fates(k).stats.value >= 20 * fates(k).total && !fates(k).locked
    ensures !Eligible(fates(k)) ==>
            now.view[k] == start.view[k] && now.dirs[start.view[k].dir] == start.dirs[start.view[k].dir]
  {
    OutcomeOf(codec, fates, start, now, results, k);
  }

  lemma OutcomeOf(codec: Codec, fates: Path -> VolumeFate, start: Stage, now: Stage,
                  results: map<Path, VolumeResult>, k: Path)
    requires ProvisionState(codec, fates, {}, start, now, results) && Isolated(start.view) && k in start.view
    ensures k in results && k in now.view && start.view[k].dir in start.dirs && start.view[k].dir in now.dirs
    ensures VolumeDone(codec, fates(k), start.view[k], start.dirs[start.view[k].dir],
                       now.view[k], now.dirs[start.view[k].dir], results[k])
  {
    assert k in results;
    assert BulkJudgement(codec, fates, start)(k, now.view[k], now.dirs[now.view[k].dir], results[k]);
  }

  /** An eligible volume gets one pass, with its own settings and answers, over its own directory. */
  lemma EligibleGetsPass(codec: Codec, fates: Path -> VolumeFate, start: Stage, now: Stage,
                         results: map<Path, VolumeResult>, k: Path)
    requires ProvisionState(codec, fates, {}, start, now, results) && Isolated(start.view) && k in start.view
    requires Eligible(fates(k))
    ensures k in results && k in now.view && start.view[k].dir in start.dirs && start.view[k].dir in now.dirs
    ensures var v, p := fates(k), start.view[k];
            var job := Job(codec, p.config, p.skipFallocate, true, v.fate, v.orphanUnlink, v.orphanGain);
            var out := Pass(job, false, start.dirs[p.dir], v.stats.value);
            && results[k] == Provided(out.report) && now.dirs[p.dir] == out.dir
            && now.view[k] == p.(inventory := Scan(codec, out.dir, p.config))
  {
    OutcomeOf(codec, fates, start, now, results, k);
  }

  /** When nothing goes wrong on an eligible volume, whatever happens on the others, its pool is full. */
  lemma EligibleVolumeIsFilled(codec: Codec, fates: Path -> VolumeFate, start: Stage, now: Stage,
                               results: map<Path, VolumeResult>, k: Path)
    requires ProvisionState(codec, fates, {}, start, now, results) && Isolated(start.view) && k in start.view
    requires Eligible(fates(k))
    requires var v, p := fates(k), start.view[k];
             Benign(Job(codec, p.config, p.skipFallocate, true, v.fate, v.orphanUnlink, v.orphanGain))
    ensures start.view[k].dir in now.dirs && AllIntact(codec, now.dirs[start.view[k].dir], start.view[k].config)
  {
    var v, p := fates(k), start.view[k];
    EligibleGetsPass(codec, fates, start, now, results, k);
    BulkRepairsAll(Job(codec, p.config, p.skipFallocate, true, v.fate, v.orphanUnlink, v.orphanGain),
                   start.dirs[p.dir], v.stats.value);
  }

  // ---------- settings per volume ----------

  /** An override's count or size applies to its own mount; the general setting applies where there is
      none. */
  lemma OverridesApply(config: BallastConfig, mount: Path)
    ensures forall o :: mount in config.overrides && config.overrides[mount] == o ==>
              && (forall n :: o.count == Some(n) ==> PerVolume(config, mount).count == n)
              && (forall n :: o.size == Some(n) ==> PerVolume(config, mount).size == n)
              && (o.count == None ==> PerVolume(config, mount).count == config.count)
              && (o.size == None ==> PerVolume(config, mount).size == config.size)
              && (Enabled(config, mount) <==> o.enabled)
    ensures mount !in config.overrides ==>
              PerVolume(config, mount) == Config(config.count, config.size) && Enabled(config, mount)
  {
  }

  lemma UpdateOutcomeOf(codec: Codec, config: BallastConfig, unlink: Path -> string -> bool, start: Stage, now: Stage,
                        results: map<Path, VolumeResult>, k: Path)
    requires UpdateState(codec, config, unlink, {}, start, now, results) && Isolated(start.view) && k in start.view
    ensures k in now.view && start.view[k].dir in start.dirs && start.view[k].dir in now.dirs
    ensures VolumeUpdated(codec, PerVolume(config, k), unlink(k), start.view[k], start.dirs[start.view[k].dir],
                          now.view[k], now.dirs[start.view[k].dir])
  {
    assert k in results;
    assert UpdateJudgement(codec, config, unlink, start)(k, now.view[k], now.dirs[now.view[k].dir], results[k]);
  }

  /** Between isolated pools an update leaves each volume with its own settings and nothing numbered past
      its own count that could be removed, and every file within it untouched. */
  lemma UpdatedAsConfigured(codec: Codec, config: BallastConfig, unlink: Path -> string -> bool,
                            start: Stage, now: Stage, results: map<Path, VolumeResult>, k: Path, i: u32)
    requires UpdateState(codec, config, unlink, {}, start, now, results) && Isolated(start.view) && k in start.view
    ensures k in now.view && start.view[k].dir in start.dirs && start.view[k].dir in now.dirs
    ensures now.view[k].config == PerVolume(config, k)
    ensures var before, after := At(start.dirs[start.view[k].dir], i), At(now.dirs[start.view[k].dir], i);
            after == if before.Some? && before.value.Regular? && (i == 0 || i > PerVolume(config, k).count)
                        && unlink(k)(SlotNames.SlotName(i))
                     then None else before
  {
    UpdateOutcomeOf(codec, config, unlink, start, now, results, k);
    PruneOnSlots(start.dirs[start.view[k].dir], PerVolume(config, k).count, unlink(k), i);
  }

  // ---------- where a pool goes, and why a mount gets none ----------

  /** The configured directory goes to the monitored mount it lies on, and to no other pool. */
  lemma PoolDirIs(mount: Path, configured: Option<Path>, mounts: seq<MountPoint>, seen: set<Path>)
    requires AllNormal(mounts) && mount in seen
    ensures PoolDir(mount, configured, mounts, seen) ==
            if configured.Some? && FindMount(configured.value, mounts).Some?
               && FindMount(configured.value, mounts).value.path == mount
            then configured.value else mount + [".sbh", "ballast"]
  {
    if configured.Some? {
      FindMountIsDeepest(configured.value, mounts);
    }
  }

  /** The reason given for a mount without a pool: the first of these that applies. */
  lemma ReasonIs(config: BallastConfig, platform: Platform, mount: MountPoint, dir: Path)
    ensures var reason := Verdict(config, platform, mount, dir);
            var enabled := mount.path in config.overrides ==> config.overrides[mount.path].enabled;
            var inMemory := mount.ramBacked || mount.fsType in {"tmpfs", "ramfs", "devtmpfs"};
            var remote := mount.fsType in {"nfs", "nfs4", "cifs", "smbfs", "fuse.sshfs"};
            var writable := platform.readOnly(mount.path) == Some(false);
            && (reason == Some(Disabled) <==> !enabled)
            && (reason == Some(RamBacked) <==> enabled && inMemory)
            && (reason == Some(Network) <==> enabled && !inMemory && remote)
            && (reason == Some(StatFailed) <==>
                 enabled && !inMemory && !remote && platform.readOnly(mount.path) == None)
            && (reason == Some(ReadOnly) <==>
                 enabled && !inMemory && !remote && platform.readOnly(mount.path) == Some(true))
            && reason != Some(StrategySkip)
            && (reason == Some(OpenFailed) <==>
                 enabled && !inMemory && !remote && writable && !platform.canOpen(dir))
            && (reason == None <==>
                 enabled && !inMemory && !remote && writable && platform.canOpen(dir))
  {
  }

  /** What the plan of discovery knows of a mount. */
  lemma PlannedAsKnown(config: BallastConfig, watched: seq<Path>, mounts: seq<MountPoint>, platform: Platform,
                       configured: Option<Path>, k: Path)
    requires k in SeenMounts(watched, mounts)
    ensures var mount := SeenMounts(watched, mounts)[k];
            var dir := PoolDir(k, configured, mounts, SeenMounts(watched, mounts).Keys);
            var plan := MakePlan(config, watched, mounts, platform, configured);
            && k in plan && plan[k].dir == dir && plan[k].fsType == mount.fsType
            && plan[k].config == PerVolume(config, mount.path)
            && plan[k].reason == Verdict(config, platform, mount, dir)
            && plan[k].strategy == ProvisionStrategy(mount.fsType)
  {
  }

  lemma StrategyIs(fsType: string)
    ensures ProvisionStrategy(fsType) ==
            if fsType in {"tmpfs", "ramfs", "devtmpfs", "nfs", "nfs4", "cifs", "smbfs", "fuse.sshfs"} then SkipVolume
            else if fsType in {"ext4", "xfs", "ext3", "ext2"} then Fallocate
            else RandomData
  {
  }

  /** A pool keeps what discovery knows of its mount: file system, strategy, directory and settings. */
  lemma PoolAsKnown(config: BallastConfig, watched: seq<Path>, mounts: seq<MountPoint>, platform: Platform,
                    configured: Option<Path>, view: map<Path, PoolView>, skipped: map<Path, SkippedPool>, k: Path)
    requires Discovered(MakePlan(config, watched, mounts, platform, configured), {}, view, skipped)
    requires k in SeenMounts(watched, mounts) && k in view
    ensures var mount := SeenMounts(watched, mounts)[k];
            && view[k].fsType == mount.fsType && view[k].config == PerVolume(config, mount.path)
            && view[k].strategy == ProvisionStrategy(mount.fsType)
            && view[k].dir == PoolDir(k, configured, mounts, SeenMounts(watched, mounts).Keys)
  {
    PlannedAsKnown(config, watched, mounts, platform, configured, k);
    assert view[k] == Foreseen(MakePlan(config, watched, mounts, platform, configured)[k], view[k].inventory);
  }

  /** A mount without a pool is kept with the same, and with the reason. */
  lemma SkippedAsKnown(config: BallastConfig, watched: seq<Path>, mounts: seq<MountPoint>, platform: Platform,
                       configured: Option<Path>, view: map<Path, PoolView>, skipped: map<Path, SkippedPool>, k: Path)
    requires Discovered(MakePlan(config, watched, mounts, platform, configured), {}, view, skipped)
    requires k in SeenMounts(watched, mounts) && k in skipped
    ensures var mount := SeenMounts(watched, mounts)[k];
            var dir := PoolDir(k, configured, mounts, SeenMounts(watched, mounts).Keys);
            && skipped[k].dir == dir && skipped[k].fsType == mount.fsType
            && skipped[k].strategy == ProvisionStrategy(mount.fsType)
            && Verdict(config, platform, mount, dir) == Some(skipped[k].reason)
  {
    PlannedAsKnown(config, watched, mounts, platform, configured, k);
    assert skipped[k] == Rejected(MakePlan(config, watched, mounts, platform, configured)[k]);
  }
}
