/** The managers of a run are the program's managers: one call on the object is one step of the model
    over which conservation and the prefix invariant are proved. */
module Fleet {
  import opened Basics
  import opened Header
  import opened Pool
  import opened Conservation
  import Manager

  ghost function ActorOf(m: Manager.BallastManager): Actor
    reads m
  {
    Actor(m.codec, m.config, m.skipFallocate, m.inventory)
  }

  /** Performs one lock-held call on a manager. */
  method Perform(m: Manager.BallastManager, call: Call)
    requires m.Valid()
    modifies m, m.fs
    ensures m.Valid()
    ensures var actor := old(ActorOf(m));
            var (dir, config) := Act(old(m.Contents()), actor, call);
            && m.fs.dirs == old(m.fs.dirs)[m.dir := dir]
            && ActorOf(m) == actor.(config := config, inventory := Scan(actor.codec, dir, config))
  {
    match call {
      case FillSlots(single, checked, fate, orphanUnlink, orphanGain, free) =>
        if single {
          var _, _ := m.ReplenishOne(true, checked, fate, orphanUnlink, orphanGain, free);
        } else {
          var _, _ := m.Provision(true, checked, fate, orphanUnlink, orphanGain, free);
        }
      case ReleaseFiles(count, unlink) =>
        var _ := m.Release(true, count, unlink);
      case UpdateConfig(config, orphanUnlink) =>
        m.UpdateConfig(config, orphanUnlink);
    }
  }

  /** Opens a pool for one more manager. */
  method OpenManager(fs: Manager.FileSystem, dir: Path, codec: Codec, config: Config, orphanUnlink: string -> bool,
                     ghost actors: seq<Actor>)
    returns (m: Manager.BallastManager?)
    modifies fs
    ensures m != null && fresh(m) && m.Valid() && m.fs == fs && m.dir == dir
    ensures var found := if dir in old(fs.dirs) then old(fs.dirs)[dir] else map[];
            World(m.Contents(), actors + [ActorOf(m)]) == Step(World(found, actors), Open(codec, config, orphanUnlink))
    ensures fs.dirs == old(fs.dirs)[dir := m.Contents()]
  {
    m := Manager.WithPlatform(fs, dir, codec, config, true, orphanUnlink);
  }
}
