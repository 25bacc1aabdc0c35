/** Read-only views of a pool (src/ballast/manager.rs): health and availability. */
module Availability {
  import opened Basics
  import opened Pool

  datatype Health = Unconfigured | Ok | Degraded | Empty | Indeterminate

  function Evaluate(configured: nat, releasable: nat): Health {
    if configured == 0 then Unconfigured
    else if releasable == 0 then Empty
    else if releasable < configured then Degraded
    else Ok
  }

  function Saturate(n: nat): u64 {
    if n < U64_LIMIT then n else U64_LIMIT - 1
  }

  function ConfiguredBytes(config: Config): u64 {
    Saturate(config.count * config.size)
  }

  datatype Snapshot = Snapshot(
    configured: nat, available: nat, missing: nat, unreadable: nat, releasable: nat, health: Health)

  /** The four things a slot can be, as predicates on slot indices. */
  function Files(dir: Dir): nat -> bool {
    (i: nat) => At(dir, i).Some? && At(dir, i).value.Regular?
  }

  function Specials(dir: Dir): nat -> bool {
    (i: nat) => At(dir, i).Some? && At(dir, i).value.Special?
  }

  function Unreadables(dir: Dir): nat -> bool {
    (i: nat) => At(dir, i).Some? && At(dir, i).value.Unreadable?
  }

  /** Absent, or present without being a regular file: the reserve is not there. */
  function Missing(dir: Dir): nat -> bool {
    (i: nat) => At(dir, i).None? || At(dir, i).value.Special?
  }

  function FileSize(found: Option<Node>): nat {
    if found.Some? && found.value.Regular? then found.value.len else 0
  }

  function FileBytes(dir: Dir): nat -> nat {
    (i: nat) => FileSize(At(dir, i))
  }

  /** The state of a pool, read slot by slot without changing anything. */
  function Observation(dir: Dir, config: Config): Snapshot {
    var unreadable := CountUpTo(Unreadables(dir), config.count);
    var releasable := Saturate(SumUpTo(FileBytes(dir), config.count));
    Snapshot(
      config.count,
      CountUpTo(Files(dir), config.count),
      CountUpTo(Missing(dir), config.count),
      unreadable,
      releasable,
      if ConfiguredBytes(config) == 0 then Unconfigured
      else if unreadable > 0 then Indeterminate
      else Evaluate(ConfiguredBytes(config), releasable))
  }

  /** Sum of the sizes an inventory remembers. */
  function TotalSize(inventory: seq<BallastFile>): nat {
    if inventory == [] then 0
    else TotalSize(inventory[..|inventory| - 1]) + inventory[|inventory| - 1].size
  }

  /** What the health of a pool means: nothing configured; nothing there; something, but not all; all. */
  lemma HealthMeans(configured: nat, releasable: nat)
    ensures Evaluate(configured, releasable) == Unconfigured <==> configured == 0
    ensures Evaluate(configured, releasable) == Empty <==> configured > 0 && releasable == 0
    ensures Evaluate(configured, releasable) == Degraded <==> 0 < releasable < configured
    ensures Evaluate(configured, releasable) == Health.Ok <==> 0 < configured <= releasable
    ensures Evaluate(configured, releasable) != Indeterminate
  {
  }

  /** The configured reserve in bytes, at most what 64 bits hold. */
  lemma ReserveMeans(config: Config)
    ensures ConfiguredBytes(config) == Min(config.count * config.size, 0xFFFF_FFFF_FFFF_FFFF)
    ensures ConfiguredBytes(config) == 0 <==> config.count == 0 || config.size == 0
  {
    if config.count > 0 && config.size > 0 {
      Grows(config.count, config.size);
    } else {
      assert config.count * config.size == 0;
    }
  }

  lemma Grows(count: nat, size: nat)
    requires count > 0
    ensures count * size >= size
  {
  }

  /** What the plain view reports: the files by number and by size, the absent and the unreadable slots. */
  lemma ObservationMeans(dir: Dir, config: Config)
    ensures var s := Observation(dir, config);
            && s.configured == config.count
            && s.releasable == Min(SumUpTo(FileBytes(dir), config.count), 0xFFFF_FFFF_FFFF_FFFF)
            && (s.health == Unconfigured <==> config.count == 0 || config.size == 0)
            && (s.health == Indeterminate <==>
                 config.count > 0 && config.size > 0 && CountUpTo(Unreadables(dir), config.count) > 0)
  {
    ReserveMeans(config);
  }

  method Observe(dir: Dir, config: Config) returns (snapshot: Snapshot)
    ensures snapshot == Observation(dir, config)
  {
    var available, missing, unreadable, releasable := 0, 0, 0, 0;
    for i := 0 to config.count
      invariant available == CountUpTo(Files(dir), i)
      invariant missing == CountUpTo(Missing(dir), i)
      invariant unreadable == CountUpTo(Unreadables(dir), i)
      invariant releasable == Saturate(SumUpTo(FileBytes(dir), i))
    {
      match At(dir, i + 1) {
        case Some(Regular(len, _, _)) =>
          available := available + 1;
          releasable := Saturate(releasable + len);
        case Some(Special(_)) =>
          missing := missing + 1;
        case None =>
          missing := missing + 1;
        case Some(Unreadable) =>
          unreadable := unreadable + 1;
      }
    }
    var pool := ConfiguredBytes(config);
    var health := if pool == 0 then Unconfigured
                  else if unreadable > 0 then Indeterminate
                  else Evaluate(pool, releasable);
    snapshot := Snapshot(config.count, available, missing, unreadable, releasable, health);
  }
}
