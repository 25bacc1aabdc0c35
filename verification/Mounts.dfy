/** Which volume a path lives on and where that volume's pool goes (src/ballast/coordinator.rs). */
module Mounts {
  import opened Basics
  import Pool

  datatype MountPoint = MountPoint(path: Path, device: string, fsType: string, ramBacked: bool)

  /** No component of a normalised path is empty. */
  ghost predicate Normal(path: Path) {
    forall k :: 0 <= k < |path| ==> path[k] != ""
  }

  /** The length of a path written out, separators included. */
  function TextLength(path: Path): nat {
    if path == [] then 1 else if |path| == 1 then 1 + |path[0]|
    else TextLength(path[..|path| - 1]) + 1 + |path[|path| - 1]|
  }

  /** The matching mount with the longest text, the last one among equals. */
  function FindMount(path: Path, mounts: seq<MountPoint>): Option<MountPoint> {
    if mounts == [] then None
    else
      var last := mounts[|mounts| - 1];
      var best := FindMount(path, mounts[..|mounts| - 1]);
      if last.path <= path && (best.None? || TextLength(best.value.path) <= TextLength(last.path))
      then Some(last)
      else best
  }

  lemma {:induction false} LongerTextOfLongerPath(short: Path, long: Path)
    requires Normal(long) && short <= long
    ensures TextLength(short) <= TextLength(long)
    ensures TextLength(short) == TextLength(long) ==> short == long
    decreases |long|
  {
    if |short| < |long| {
      var parent := long[..|long| - 1];
      assert short <= parent && Normal(parent);
      LongerTextOfLongerPath(short, parent);
      assert |long[|long| - 1]| >= 1;
    } else {
      assert short == long;
    }
  }

  ghost predicate AllNormal(mounts: seq<MountPoint>) {
    forall m :: m in mounts ==> Normal(m.path)
  }

  /** A path resolves to the deepest mount above it. */
  lemma {:induction false} FindMountIsDeepest(path: Path, mounts: seq<MountPoint>)
    requires AllNormal(mounts)
    ensures var found := FindMount(path, mounts);
            && (found.None? <==> forall m :: m in mounts ==> !(m.path <= path))
            && (found.Some? ==>
                 && found.value in mounts && found.value.path <= path
                 && forall m :: m in mounts && m.path <= path ==> m.path <= found.value.path)
    decreases |mounts|
  {
    if mounts != [] {
      var last, rest := mounts[|mounts| - 1], mounts[..|mounts| - 1];
      assert mounts == rest + [last];
      FindMountIsDeepest(path, rest);
      var best := FindMount(path, rest);
      if last.path <= path && best.Some? {
        if |last.path| <= |best.value.path| {
          assert last.path <= best.value.path;
          LongerTextOfLongerPath(last.path, best.value.path);
        } else {
          assert best.value.path <= last.path;
          LongerTextOfLongerPath(best.value.path, last.path);
        }
      }
    }
  }

  /** The last mount table entry for a mount path. */
  function LastEntry(key: Path, mounts: seq<MountPoint>): Option<MountPoint> {
    if mounts == [] then None
    else if mounts[|mounts| - 1].path == key then Some(mounts[|mounts| - 1])
    else LastEntry(key, mounts[..|mounts| - 1])
  }

  /** Which entry a path resolves to depends on the path only through the mount path. */
  lemma {:induction false} FindMountIsLastEntry(path: Path, mounts: seq<MountPoint>)
    requires AllNormal(mounts) && FindMount(path, mounts).Some?
    ensures var found := FindMount(path, mounts).value;
            LastEntry(found.path, mounts) == Some(found)
    decreases |mounts|
  {
    var last, rest := mounts[|mounts| - 1], mounts[..|mounts| - 1];
    assert mounts == rest + [last];
    var found := FindMount(path, mounts).value;
    FindMountIsDeepest(path, mounts);
    if found.path != last.path {
      FindMountIsLastEntry(path, rest);
    }
  }

  // ---------- volume settings ----------

  datatype VolumeOverride = VolumeOverride(enabled: bool, count: Option<u32>, size: Option<u64>)

  datatype BallastConfig = BallastConfig(count: u32, size: u64, overrides: map<Path, VolumeOverride>)

  function Enabled(config: BallastConfig, mount: Path): bool {
    mount in config.overrides ==> config.overrides[mount].enabled
  }

  function PerVolume(config: BallastConfig, mount: Path): Pool.Config {
    if mount in config.overrides then
      var o := config.overrides[mount];
      Pool.Config(if o.count.Some? then o.count.value else config.count,
                  if o.size.Some? then o.size.value else config.size)
    else Pool.Config(config.count, config.size)
  }

  datatype Strategy = Fallocate | RandomData | SkipVolume

  const FALLOCATE_FRIENDLY: set<string> := {"ext4", "xfs", "ext3", "ext2"}
  const COW_FILESYSTEMS: set<string> := {"btrfs", "zfs", "bcachefs"}
  const RAM_FILESYSTEMS: set<string> := {"tmpfs", "ramfs", "devtmpfs"}
  const NETWORK_FILESYSTEMS: set<string> := {"nfs", "nfs4", "cifs", "smbfs", "fuse.sshfs"}

  function ProvisionStrategy(fsType: string): Strategy {
    if fsType in RAM_FILESYSTEMS || fsType in NETWORK_FILESYSTEMS then SkipVolume
    else if fsType in COW_FILESYSTEMS then RandomData
    else if fsType in FALLOCATE_FRIENDLY then Fallocate
    else RandomData
  }

  // ---------- pool directories ----------

  const SBH: string := ".sbh"
  const BALLAST: string := "ballast"

  function DefaultDir(mount: Path): Path {
    mount + [SBH, BALLAST]
  }

  /** The configured directory where this mount contains it, else the volume's own subdirectory. */
  function ResolveDir(mount: Path, configured: Option<Path>): Path {
    if configured.Some? && mount <= configured.value then configured.value else DefaultDir(mount)
  }

  /** The monitored mount that owns the configured directory. */
  function ConfiguredOwner(configured: Option<Path>, mounts: seq<MountPoint>, seen: set<Path>): Option<Path> {
    if configured.None? then None
    else
      var found := FindMount(configured.value, mounts);
      if found.Some? && found.value.path in seen then Some(found.value.path) else None
  }

  /** The directory of the pool on `mount`: only the owner is redirected. */
  function PoolDir(mount: Path, configured: Option<Path>, mounts: seq<MountPoint>, seen: set<Path>): Path {
    ResolveDir(mount, if ConfiguredOwner(configured, mounts, seen) == Some(mount) then configured else None)
  }

  /** A mount placed on another mount's `.sbh` or `.sbh/ballast`. */
  predicate MountedOver(mount: Path, mounts: seq<MountPoint>) {
    exists m :: m in mounts && (m.path == mount + [SBH] || m.path == DefaultDir(mount))
  }

  ghost predicate IsMount(path: Path, mounts: seq<MountPoint>) {
    exists m :: m in mounts && m.path == path
  }

  /** Ballast lands on the volume it is meant for: the directory of a pool resolves back to the
      pool's own mount if and only if it is the configured directory of that mount, or nothing is
      mounted over the default subdirectory. */
  lemma PoolDirOnOwnVolume(mount: Path, configured: Option<Path>, mounts: seq<MountPoint>, seen: set<Path>)
    requires AllNormal(mounts) && IsMount(mount, mounts)
    ensures var dir := PoolDir(mount, configured, mounts, seen);
            var home := FindMount(dir, mounts);
            && home.Some?
            && (home.value.path == mount <==>
                 ConfiguredOwner(configured, mounts, seen) == Some(mount) || !MountedOver(mount, mounts))
  {
    var dir := PoolDir(mount, configured, mounts, seen);
    FindMountIsDeepest(dir, mounts);
    if ConfiguredOwner(configured, mounts, seen) == Some(mount) {
      FindMountIsDeepest(configured.value, mounts);
    } else {
      var home := FindMount(dir, mounts);
      assert dir == DefaultDir(mount) && mount <= dir;
      var m :| m in mounts && m.path == mount;
      BetweenMountAndDefault(mount, home.value.path);
      if MountedOver(mount, mounts) {
        var over :| over in mounts && (over.path == mount + [SBH] || over.path == DefaultDir(mount));
        assert over.path <= dir;
      }
    }
  }

  lemma BetweenMountAndDefault(mount: Path, path: Path)
    requires mount <= path <= DefaultDir(mount)
    ensures path == mount || path == mount + [SBH] || path == DefaultDir(mount)
  {
    var dir := DefaultDir(mount);
    assert path == dir[..|path|];
    assert dir[..|mount| + 1] == mount + [SBH];
  }

  /** Exactly when two pools would share a directory: one owns the configured directory and that
      directory is the other's default, so the owner is mounted over the other's subdirectory. */
  lemma PoolDirsCollideIff(a: Path, b: Path, configured: Option<Path>, mounts: seq<MountPoint>, seen: set<Path>)
    requires AllNormal(mounts) && IsMount(a, mounts) && IsMount(b, mounts) && a != b
    ensures PoolDir(a, configured, mounts, seen) == PoolDir(b, configured, mounts, seen) <==>
            Usurps(a, b, configured, mounts, seen) || Usurps(b, a, configured, mounts, seen)
    ensures Usurps(a, b, configured, mounts, seen) ==> a == b + [SBH] || a == DefaultDir(b)
  {
    var owner := ConfiguredOwner(configured, mounts, seen);
    if configured.Some? {
      FindMountIsDeepest(configured.value, mounts);
    }
    assert DefaultDir(a)[..|a|] == a && DefaultDir(b)[..|b|] == b;
    if Usurps(a, b, configured, mounts, seen) {
      var m :| m in mounts && m.path == b;
      assert b <= configured.value;
      BetweenMountAndDefault(b, a);
    }
  }

  /** `a` owns the configured directory, which is the default directory of `b`. */
  ghost predicate Usurps(a: Path, b: Path, configured: Option<Path>, mounts: seq<MountPoint>, seen: set<Path>) {
    && ConfiguredOwner(configured, mounts, seen) == Some(a)
    && configured == Some(DefaultDir(b))
  }

  /** Both happen: `/.sbh` is a mount of its own and holds the configured directory. The pool of `/` then
      lies on `/.sbh`, in the very directory of that mount's own pool. */
  lemma PoolOnWrongVolume(root: MountPoint, over: MountPoint)
    requires root.path == [] && over.path == [SBH]
    ensures var mounts, configured, seen := [root, over], Some([SBH, BALLAST]), {[], [SBH]};
            var dir := PoolDir([], configured, mounts, seen);
            && FindMount(dir, mounts) == Some(over)
            && dir == PoolDir([SBH], configured, mounts, seen) == configured.value
  {
    var mounts, configured, seen := [root, over], Some([SBH, BALLAST]), {[], [SBH]};
    assert AllNormal(mounts) && IsMount([], mounts) && IsMount([SBH], mounts) by {
      assert root in mounts && over in mounts;
    }
    assert DefaultDir([]) == configured.value;
    FindMountIsDeepest(configured.value, mounts);
    assert over.path <= configured.value;
    assert ConfiguredOwner(configured, mounts, seen) == Some([SBH]);
    PoolDirsCollideIff([SBH], [], configured, mounts, seen);
  }

  // ---------- discovery ----------

  /** The monitored mounts: one entry per mount that owns a watched path, first come first kept. */
  function SeenMounts(watched: seq<Path>, mounts: seq<MountPoint>): map<Path, MountPoint> {
    if watched == [] then map[]
    else
      var seen := SeenMounts(watched[..|watched| - 1], mounts);
      match FindMount(watched[|watched| - 1], mounts)
      case None => seen
      case Some(mount) => if mount.path in seen then seen else seen[mount.path := mount]
  }

  /** Some watched path lives on the mount `key`. */
  ghost predicate Watched(key: Path, watched: seq<Path>, mounts: seq<MountPoint>) {
    exists p :: p in watched && FindMount(p, mounts).Some? && FindMount(p, mounts).value.path == key
  }

  lemma {:induction false} SeenMountsAreOwners(watched: seq<Path>, mounts: seq<MountPoint>)
    requires AllNormal(mounts)
    ensures var seen := SeenMounts(watched, mounts);
            && (forall key :: key in seen <==> Watched(key, watched, mounts))
            && (forall key :: key in seen ==> LastEntry(key, mounts) == Some(seen[key]) && IsMount(key, mounts))
    decreases |watched|
  {
    if watched != [] {
      var rest, last := watched[..|watched| - 1], watched[|watched| - 1];
      assert watched == rest + [last];
      SeenMountsAreOwners(rest, mounts);
      FindMountIsDeepest(last, mounts);
      assert last in watched;
      forall key
        ensures Watched(key, watched, mounts) <==>
          (Watched(key, rest, mounts)
           || (FindMount(last, mounts).Some? && FindMount(last, mounts).value.path == key))
      {
        assert forall p :: p in watched <==> p in rest || p == last;
      }
      if FindMount(last, mounts).Some? {
        FindMountIsLastEntry(last, mounts);
      }
    }
  }

  /** The monitored mounts do not depend on the order (or repetition) of the watched paths. */
  lemma SeenMountsIgnoreOrder(watched: seq<Path>, shuffled: seq<Path>, mounts: seq<MountPoint>)
    requires AllNormal(mounts) && forall p :: p in watched <==> p in shuffled
    ensures SeenMounts(watched, mounts) == SeenMounts(shuffled, mounts)
  {
    SeenMountsAreOwners(watched, mounts);
    SeenMountsAreOwners(shuffled, mounts);
    var a, b := SeenMounts(watched, mounts), SeenMounts(shuffled, mounts);
    assert forall key :: key in a <==> key in b;
    assert forall key :: key in a ==> a[key] == b[key];
  }

  /** What the platform says about a mount: whether it is read-only (None when it cannot be read),
      and whether a pool directory can be created. */
  datatype Platform = Platform(readOnly: Path -> Option<bool>, canOpen: Path -> bool)

  datatype SkipReason = Disabled | RamBacked | Network | StatFailed | ReadOnly | StrategySkip | OpenFailed

  /** Why a mount gets no pool, if it gets none: the first check that rejects it. */
  function Verdict(config: BallastConfig, platform: Platform, mount: MountPoint, dir: Path): Option<SkipReason> {
    if !Enabled(config, mount.path) then Some(Disabled)
    else if mount.ramBacked || mount.fsType in RAM_FILESYSTEMS then Some(RamBacked)
    else if mount.fsType in NETWORK_FILESYSTEMS then Some(Network)
    else if platform.readOnly(mount.path).None? then Some(StatFailed)
    else if platform.readOnly(mount.path).value then Some(ReadOnly)
    else if ProvisionStrategy(mount.fsType) == SkipVolume then Some(StrategySkip)
    else if !platform.canOpen(dir) then Some(OpenFailed)
    else None
  }

  /** A mount that is enabled, local, not RAM-backed, readable and writable, and lets its pool directory
      be created. */
  predicate Suitable(config: BallastConfig, platform: Platform, mount: MountPoint, dir: Path) {
    && Enabled(config, mount.path) && platform.readOnly(mount.path) == Some(false) && platform.canOpen(dir)
    && !mount.ramBacked && mount.fsType !in RAM_FILESYSTEMS && mount.fsType !in NETWORK_FILESYSTEMS
  }

  /** What discovery decides for one monitored mount. */
  datatype Volume = Volume(
    dir: Path, fsType: string, strategy: Strategy, config: Pool.Config, reason: Option<SkipReason>)

  function PlanVolume(config: BallastConfig, platform: Platform, mount: MountPoint, dir: Path): Volume {
    Volume(dir, mount.fsType, ProvisionStrategy(mount.fsType), PerVolume(config, mount.path),
           Verdict(config, platform, mount, dir))
  }

  /** The loop that collects the monitored mounts. */
  method CollectSeenMounts(watched: seq<Path>, mounts: seq<MountPoint>) returns (seen: map<Path, MountPoint>)
    ensures seen == SeenMounts(watched, mounts)
  {
    seen := map[];
    for i := 0 to |watched|
      invariant seen == SeenMounts(watched[..i], mounts)
    {
      assert watched[..i + 1][..i] == watched[..i];
      var mount := FindMount(watched[i], mounts);
      if mount.Some? && mount.value.path !in seen {
        seen := seen[mount.value.path := mount.value];
      }
    }
    assert watched[..|watched|] == watched;
  }

  /** The decisions of discovery, mount by mount. */
  function PlanFor(config: BallastConfig, seen: map<Path, MountPoint>, mounts: seq<MountPoint>,
                   platform: Platform, configured: Option<Path>): map<Path, Volume>
  {
    var owner := ConfiguredOwner(configured, mounts, seen.Keys);
    map k | k in seen ::
      PlanVolume(config, platform, seen[k], ResolveDir(k, if owner == Some(k) then configured else None))
  }

  function MakePlan(config: BallastConfig, watched: seq<Path>, mounts: seq<MountPoint>,
                    platform: Platform, configured: Option<Path>): map<Path, Volume>
  {
    PlanFor(config, SeenMounts(watched, mounts), mounts, platform, configured)
  }

  /** The plan covers exactly the mounts of the watched paths and ignores their order. */
  lemma PlanCoversWatchedMounts(config: BallastConfig, watched: seq<Path>, shuffled: seq<Path>, mounts: seq<MountPoint>,
                                platform: Platform, configured: Option<Path>)
    requires AllNormal(mounts) && forall p :: p in watched <==> p in shuffled
    ensures forall k :: k in MakePlan(config, watched, mounts, platform, configured) <==> Watched(k, watched, mounts)
    ensures MakePlan(config, watched, mounts, platform, configured)
            == MakePlan(config, shuffled, mounts, platform, configured)
  {
    SeenMountsAreOwners(watched, mounts);
    SeenMountsIgnoreOrder(watched, shuffled, mounts);
  }

  /** No two planned pools share a directory. */
  ghost predicate Separate(plan: map<Path, Volume>) {
    forall a, b ::
      a in plan && b in plan && plan[a].reason == None && plan[b].reason == None && plan[a].dir == plan[b].dir ==>
        a == b
  }

  /** If no mount sits on another's `.sbh` or `.sbh/ballast`, planned pools never share a directory,
      each directory lies on its own pool's volume, and only the pool on the configured directory's
      own mount uses that directory. */
  lemma PlanSeparatesPools(config: BallastConfig, watched: seq<Path>, mounts: seq<MountPoint>,
                           platform: Platform, configured: Option<Path>)
    requires AllNormal(mounts) && forall m :: m in mounts ==> !MountedOver(m.path, mounts)
    ensures var plan := MakePlan(config, watched, mounts, platform, configured);
            && Separate(plan)
            && (forall k :: k in plan ==>
                 FindMount(plan[k].dir, mounts).Some? && FindMount(plan[k].dir, mounts).value.path == k)
  {
    var plan := MakePlan(config, watched, mounts, platform, configured);
    var seen := SeenMounts(watched, mounts);
    SeenMountsAreOwners(watched, mounts);
    forall k | k in plan
      ensures FindMount(plan[k].dir, mounts).Some? && FindMount(plan[k].dir, mounts).value.path == k
    {
      PoolDirOnOwnVolume(k, configured, mounts, seen.Keys);
      var m :| m in mounts && m.path == k;
      assert !MountedOver(m.path, mounts);
    }
  }
}
