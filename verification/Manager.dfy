/** The ballast manager as the program runs it: an object with a configuration and an inventory,
    changing one directory of a shared file system step by step (src/ballast/manager.rs). */
module Manager {
  import opened Basics
  import opened Header
  import opened SlotNames
  import opened Pool
  import opened Availability

  class FileSystem {
    var dirs: map<Path, Dir>

    constructor (initial: map<Path, Dir>)
      ensures dirs == initial
    {
      dirs := initial;
    }

    /** Creating a directory that exists already changes nothing. */
    method CreateDirAll(path: Path)
      modifies this
      ensures dirs == if path in old(dirs) then old(dirs) else old(dirs)[path := map[]]
    {
      if path !in dirs {
        dirs := dirs[path := map[]];
      }
    }

    /** Sets or clears one directory entry. */
    method Store(path: Path, name: string, node: Option<Node>)
      requires path in dirs
      modifies this
      ensures dirs == old(dirs)[path := Put(old(dirs)[path], name, node)]
    {
      dirs := dirs[path := Put(dirs[path], name, node)];
    }

    /** `remove_file`: succeeds when the entry is there and the environment lets it. */
    method Unlink(path: Path, name: string, permitted: bool) returns (done: bool)
      requires path in dirs
      modifies this
      ensures done == (name in old(dirs)[path] && permitted)
      ensures dirs == if done then old(dirs)[path := old(dirs)[path] - {name}] else old(dirs)
    {
      done := name in dirs[path] && permitted;
      if done {
        dirs := dirs[path := dirs[path] - {name}];
      }
    }
  }

  datatype VerifyReport = VerifyReport(checked: nat, ok: nat, corrupted: nat, missing: nat)

  /** Slots verification accepts, and slots it finds absent. */
  function ValidSlots(codec: Codec, dir: Dir, size: nat): nat -> bool {
    (i: nat) => Intact(codec, At(dir, i), i, size)
  }

  function AbsentSlots(dir: Dir): nat -> bool {
    (i: nat) => !Exists(At(dir, i))
  }

  lemma PutTwice(dirs: map<Path, Dir>, d: Path, a: Dir, b: Dir)
    ensures dirs[d := a][d := b] == dirs[d := b]
  {
  }

  class BallastManager {
    const fs: FileSystem
    const dir: Path
    const codec: Codec
    var config: Config
    var inventory: seq<BallastFile>
    var skipFallocate: bool

    ghost predicate Valid()
      reads this, fs
    {
      dir in fs.dirs
    }

    function Contents(): Dir
      requires Valid()
      reads this, fs
    {
      fs.dirs[dir]
    }

    /** The pass this manager would run, given the environment's answers. */
    function JobWith(checked: bool, fate: nat -> Fate, orphanUnlink: string -> bool, orphanGain: nat): Job
      reads this
    {
      Job(codec, config, skipFallocate, checked, fate, orphanUnlink, orphanGain)
    }

    /** Opens the pool directory, prunes leftovers and takes the first inventory. */
    constructor (fs: FileSystem, dir: Path, codec: Codec, config: Config, orphanUnlink: string -> bool)
      modifies fs
      ensures Valid() && this.fs == fs && this.dir == dir && this.codec == codec
      ensures this.config == config && !skipFallocate
      ensures var found := if dir in old(fs.dirs) then old(fs.dirs)[dir] else map[];
              && fs.dirs == old(fs.dirs)[dir := Prune(found, config.count, orphanUnlink)]
              && inventory == Scan(codec, Contents(), config)
    {
      this.fs := fs;
      this.dir := dir;
      this.codec := codec;
      this.config := config;
      this.inventory := [];
      this.skipFallocate := false;
      new;
      fs.CreateDirAll(dir);
      PruneOrphans(orphanUnlink);
      ScanExisting();
    }

    function ReleasableBytes(): nat
      reads this
    {
      TotalSize(inventory)
    }

    function AvailableCount(): nat
      reads this
    {
      |inventory|
    }

    method SetSkipFallocate(skip: bool)
      modifies this`skipFallocate
      ensures skipFallocate == skip
    {
      skipFallocate := skip;
    }

    method UpdateConfig(newConfig: Config, orphanUnlink: string -> bool)
      requires Valid()
      modifies this`config, this`inventory, fs
      ensures Valid() && config == newConfig
      ensures fs.dirs == old(fs.dirs)[dir := Prune(old(Contents()), newConfig.count, orphanUnlink)]
      ensures inventory == Scan(codec, Contents(), config)
    {
      config := newConfig;
      PruneOrphans(orphanUnlink);
      ScanExisting();
    }

    /** Fills every slot that is missing or fails verification. None when the lock is not obtained. */
    method Provision(locked: bool, checked: bool, fate: nat -> Fate,
                     orphanUnlink: string -> bool, orphanGain: nat, free: int)
      returns (r: Option<ProvisionReport>, room: int)
      requires Valid()
      modifies this`inventory, fs
      ensures Valid()
      ensures !locked ==> r == None && room == free && unchanged(this) && unchanged(fs)
      ensures locked ==>
        var out := Pass(JobWith(checked, fate, orphanUnlink, orphanGain), false, old(Contents()), free);
        && r == Some(out.report) && room == out.free
        && fs.dirs == old(fs.dirs)[dir := out.dir]
        && inventory == Scan(codec, Contents(), config)
    {
      if !locked {
        return None, free;
      }
      var report, left := FillSlots(false, checked, fate, orphanUnlink, orphanGain, free);
      r, room := Some(report), left;
    }

    /** Fills at most one slot. None when the lock is not obtained. */
    method ReplenishOne(locked: bool, checked: bool, fate: nat -> Fate,
                        orphanUnlink: string -> bool, orphanGain: nat, free: int)
      returns (r: Option<ProvisionReport>, room: int)
      requires Valid()
      modifies this`inventory, fs
      ensures Valid()
      ensures !locked ==> r == None && room == free && unchanged(this) && unchanged(fs)
      ensures locked ==>
        var out := Pass(JobWith(checked, fate, orphanUnlink, orphanGain), true, old(Contents()), free);
        && r == Some(out.report) && room == out.free
        && fs.dirs == old(fs.dirs)[dir := out.dir]
        && inventory == Scan(codec, Contents(), config)
    {
      if !locked {
        return None, free;
      }
      var report, left := FillSlots(true, checked, fate, orphanUnlink, orphanGain, free);
      r, room := Some(report), left;
    }

    /** Deletes the given number of inventoried files, highest index first. */
    method Release(locked: bool, count: nat, unlink: nat -> bool) returns (r: Option<ReleaseReport>)
      requires Valid()
      modifies this`inventory, fs
      ensures Valid()
      ensures !locked ==> r == None && unchanged(this) && unchanged(fs)
      ensures locked ==>
        var (after, report) := Pool.Release(old(Contents()), old(inventory), count, unlink);
        && r == Some(report)
        && fs.dirs == old(fs.dirs)[dir := after]
        && inventory == Scan(codec, Contents(), config)
    {
      if !locked {
        return None;
      }
      var report := RemoveFiles(Take(Descending(inventory), count), unlink);
      r := Some(report);
      ScanExisting();
    }

    /** The loop of a release: measures each file on disk, removes it, and counts what was removed. */
    method RemoveFiles(targets: seq<nat>, unlink: nat -> bool) returns (report: ReleaseReport)
      requires Valid()
      modifies fs
      ensures var (after, expected) := ReleaseAll(old(Contents()), targets, unlink, EMPTY_RELEASE);
        report == expected && fs.dirs == old(fs.dirs)[dir := after]
    {
      report := EMPTY_RELEASE;
      var k := 0;
      ghost var goal := ReleaseAll(Contents(), targets, unlink, report);
      while k < |targets|
        invariant 0 <= k <= |targets|
        invariant dir in fs.dirs && fs.dirs == old(fs.dirs)[dir := fs.dirs[dir]]
        invariant goal == ReleaseAll(fs.dirs[dir], targets[k..], unlink, report)
      {
        var index := targets[k];
        var size := Size(At(Contents(), index));
        assert targets[k..][0] == index && targets[k..][1..] == targets[k + 1..];
        var done := fs.Unlink(dir, SlotName(index), unlink(index));
        if done {
          report := report.(released := report.released + 1, freed := report.freed + size);
        } else {
          report := report.(errors := report.errors + [index]);
        }
        k := k + 1;
      }
      assert targets[k..] == [];
    }

    /** Checks every configured slot without changing anything. */
    method Verify() returns (report: VerifyReport)
      requires Valid()
      ensures report.checked == config.count
      ensures report.ok == CountUpTo(ValidSlots(codec, Contents(), config.size), config.count)
      ensures report.missing == CountUpTo(AbsentSlots(Contents()), config.count)
      ensures report.ok + report.corrupted + report.missing == config.count
    {
      report := VerifyReport(0, 0, 0, 0);
      for i := 0 to config.count
        invariant report.checked == i == report.ok + report.corrupted + report.missing
        invariant report.ok == CountUpTo(ValidSlots(codec, Contents(), config.size), i)
        invariant report.missing == CountUpTo(AbsentSlots(Contents()), i)
      {
        var found := At(Contents(), i + 1);
        report := report.(checked := i + 1);
        if !Exists(found) {
          report := report.(missing := report.missing + 1);
        } else if Intact(codec, found, i + 1, config.size) {
          report := report.(ok := report.ok + 1);
        } else {
          report := report.(corrupted := report.corrupted + 1);
        }
      }
    }

    // ---------- internal ----------

    method PruneOrphans(unlink: string -> bool)
      requires Valid()
      modifies fs
      ensures fs.dirs == old(fs.dirs)[dir := Prune(old(Contents()), config.count, unlink)]
    {
      var entries := Contents().Keys;
      var before := Contents();
      while entries != {}
        invariant entries <= before.Keys
        invariant dir in fs.dirs && fs.dirs == old(fs.dirs)[dir := fs.dirs[dir]]
        invariant forall name :: name in fs.dirs[dir] <==>
          name in before && (name in entries || !(IsOrphan(name, before[name], config.count) && unlink(name)))
        invariant forall name :: name in fs.dirs[dir] ==> fs.dirs[dir][name] == before[name]
        decreases entries
      {
        var name :| name in entries;
        entries := entries - {name};
        if IsOrphan(name, before[name], config.count) {
          var _ := fs.Unlink(dir, name, unlink(name));
        }
      }
      assert Contents() == Prune(before, config.count, unlink);
    }

    method ScanExisting()
      requires Valid()
      modifies this`inventory
      ensures inventory == Scan(codec, Contents(), config)
    {
      inventory := [];
      for i := 0 to config.count
        invariant inventory == ScanUpTo(codec, Contents(), config.size, i)
      {
        var found := At(Contents(), i + 1);
        if Exists(found) {
          inventory := inventory + [BallastFile(i + 1, Size(found), Intact(codec, found, i + 1, config.size))];
        }
      }
    }

    /** One file creation with its cleanup: what is stored at the slot afterwards. */
    method CreateBallastFile(job: Job, index: u32) returns (result: WriteResult)
      requires Valid() && job.codec == codec && job.config == config
      modifies fs
      ensures result == CreateFile(job, index)
      ensures result.Written? ==>
        fs.dirs == old(fs.dirs)[dir := Put(old(Contents()), SlotName(index), Some(result.node))]
      ensures result.NoSpace? || result.Broke? ==>
        fs.dirs == old(fs.dirs)[dir := Put(old(Contents()), SlotName(index), job.fate(index).left)]
      ensures result.Refused? ==> fs.dirs == old(fs.dirs)
    {
      if config.size < HEADER_SIZE {
        return Refused;
      }
      result := WriteInner(job, index);
      if result.Written? {
        fs.Store(dir, SlotName(index), Some(result.node));
      } else {
        fs.Store(dir, SlotName(index), job.fate(index).left);
      }
    }

    /** The write itself: preallocation unless it is forced off, falling back to random data. */
    method WriteInner(job: Job, index: u32) returns (result: WriteResult)
      requires job.config == config && HEADER_SIZE <= config.size
      ensures result == CreateFile(job, index) && !result.Refused?
    {
      var fate := job.fate(index);
      var head := HeaderBuffer(job.codec, index, config.size, fate.createdAt);
      if head == None {
        return Broke;
      }
      var file := Regular(config.size, head.value, fate.blocks);
      if !job.skipFallocate {
        match fate.prealloc {
          case Done =>
            return if fate.seal.Done? then Written(file) else if fate.seal.Full? then NoSpace else Broke;
          case Full =>
            return NoSpace;
          case Broken =>
        }
      }
      return if fate.random.Done? then Written(file) else if fate.random.Full? then NoSpace else Broke;
    }

    /** One slot: leave it when intact, else clear it, check free space and create it. */
    method VisitOne(job: Job, index: u32, free: int) returns (outcome: Outcome, room: int)
      requires Valid() && job.codec == codec && job.config == config
      modifies fs
      ensures var v := VisitSlot(job, index, At(old(Contents()), index), free);
        && outcome == v.outcome && room == v.free
        && fs.dirs == old(fs.dirs)[dir := Put(old(Contents()), SlotName(index), v.node)]
    {
      room := free;
      var fate := job.fate(index);
      var found := At(Contents(), index);
      if Exists(found) {
        if Intact(codec, found, index, config.size) {
          assert Put(Contents(), SlotName(index), found) == Contents();
          return Skipped, room;
        }
        var cleared := fs.Unlink(dir, SlotName(index), fate.unlink);
        if cleared {
          room := room + fate.gain;
        }
      }
      assert Contents() == Put(old(Contents()), SlotName(index), At(Contents(), index));
      if job.checked && fate.low(room) {
        return LowSpace, room;
      }
      var result := CreateBallastFile(job, index);
      if result.Refused? {
        return Failed, room;
      }
      room := room - fate.cost;
      ghost var v := VisitSlot(job, index, found, free);
      assert Contents() == Put(old(Contents()), SlotName(index), v.node);
      assert fs.dirs == old(fs.dirs)[dir := Contents()];
      outcome := if result.Written? then Created else if result.NoSpace? then Exhausted else Failed;
    }

    /** The loop behind `provision` and `replenish_one`. */
    method FillSlots(single: bool, checked: bool, fate: nat -> Fate,
                     orphanUnlink: string -> bool, orphanGain: nat, free: int)
      returns (report: ProvisionReport, room: int)
      requires Valid()
      modifies this`inventory, fs
      ensures Valid()
      ensures
        var out := Pass(JobWith(checked, fate, orphanUnlink, orphanGain), single, old(Contents()), free);
        && report == out.report && room == out.free
        && fs.dirs == old(fs.dirs)[dir := out.dir]
        && inventory == Scan(codec, Contents(), config)
    {
      var job := JobWith(checked, fate, orphanUnlink, orphanGain);
      ghost var before := fs.dirs;
      PruneOrphans(orphanUnlink);
      ghost var clean := Contents();
      assert Fill(clean, free + orphanGain, EMPTY_REPORT, 1) == Start(job, before[dir], free);
      report, room := VisitSlots(job, single, free + orphanGain);
      PutTwice(before, dir, clean, fs.dirs[dir]);
      ScanExisting();
    }

    /** Visits the slots in ascending order until one ends the pass. */
    method VisitSlots(job: Job, single: bool, free: int) returns (report: ProvisionReport, room: int)
      requires Valid() && job.codec == codec && job.config == config
      modifies fs
      ensures var out := FillFrom(job, single, Fill(old(Contents()), free, EMPTY_REPORT, 1));
        && report == out.report && room == out.free
        && fs.dirs == old(fs.dirs)[dir := out.dir]
    {
      report, room := EMPTY_REPORT, free;
      ghost var out := FillFrom(job, single, Fill(Contents(), free, report, 1));
      var i := 1;
      while i <= config.count
        invariant 1 <= i <= config.count + 1
        invariant dir in fs.dirs && fs.dirs == old(fs.dirs)[dir := fs.dirs[dir]]
        invariant out == FillFrom(job, single, Fill(fs.dirs[dir], room, report, i))
      {
        ghost var s := Fill(Contents(), room, report, i);
        var outcome: Outcome;
        outcome, room := VisitOne(job, i, room);
        report := Record(report, i, outcome, config.size);
        i := i + 1;
        assert Fill(Contents(), room, report, i) == Advance(job, s);
        if outcome.LowSpace? || outcome.Exhausted? || (single && outcome.Created?) {
          break;
        }
      }
      assert out == Fill(Contents(), room, report, i);
    }
  }

  /** Opening a pool: null when its directory cannot be created. */
  method WithPlatform(fs: FileSystem, dir: Path, codec: Codec, config: Config, creatable: bool,
                      orphanUnlink: string -> bool) returns (m: BallastManager?)
    modifies fs
    ensures m == null <==> !creatable && dir !in old(fs.dirs)
    ensures m == null ==> fs.dirs == old(fs.dirs)
    ensures m != null ==>
      && fresh(m) && m.Valid() && m.fs == fs && m.dir == dir && m.codec == codec && m.config == config
      && !m.skipFallocate
      && var found := if dir in old(fs.dirs) then old(fs.dirs)[dir] else map[];
      && fs.dirs == old(fs.dirs)[dir := Prune(found, config.count, orphanUnlink)]
      && m.inventory == Scan(codec, m.Contents(), config)
  {
    if dir !in fs.dirs && !creatable {
      return null;
    }
    m := new BallastManager(fs, dir, codec, config, orphanUnlink);
  }
}
