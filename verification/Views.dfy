/** The manager's remembered view of its pool against the plain, read-only view. */
module Views {
  import opened Basics
  import opened Header
  import opened SlotNames
  import opened Pool
  import opened Availability

  /** An inventory lists exactly the existing slots 1..last, once each, in ascending order, with the
      size found on disk and the verdict of verification. */
  ghost predicate Mirrors(inventory: seq<BallastFile>, codec: Codec, dir: Dir, size: nat, last: nat) {
    && (forall a, b :: 0 <= a < b < |inventory| ==> inventory[a].index < inventory[b].index)
    && (forall k :: 0 <= k < |inventory| ==>
         var f := inventory[k];
         && 1 <= f.index <= last && Exists(At(dir, f.index))
         && f.size == Size(At(dir, f.index))
         && f.integrityOk == Intact(codec, At(dir, f.index), f.index, size))
    && (forall i :: 1 <= i <= last && Exists(At(dir, i)) ==> Listed(inventory, i))
  }

  ghost predicate Listed(inventory: seq<BallastFile>, i: nat) {
    exists k :: 0 <= k < |inventory| && inventory[k].index == i
  }

  /** Every operation ends with a scan, and a scan mirrors the directory. */
  lemma {:induction false} ScanMirrors(codec: Codec, dir: Dir, size: nat, last: nat)
    ensures Mirrors(ScanUpTo(codec, dir, size, last), codec, dir, size, last)
  {
    if last > 0 {
      ScanMirrors(codec, dir, size, last - 1);
      MirrorGrows(ScanUpTo(codec, dir, size, last - 1), codec, dir, size, last);
    }
  }

  lemma MirrorGrows(inventory: seq<BallastFile>, codec: Codec, dir: Dir, size: nat, last: nat)
    requires last > 0 && Mirrors(inventory, codec, dir, size, last - 1)
    ensures Mirrors(inventory + Entry(codec, dir, size, last), codec, dir, size, last)
  {
    var longer := inventory + Entry(codec, dir, size, last);
    ListedGrows(inventory, Entry(codec, dir, size, last));
    assert Exists(At(dir, last)) ==> longer[|inventory|].index == last;
  }

  lemma ListedGrows(inventory: seq<BallastFile>, more: seq<BallastFile>)
    ensures forall i :: Listed(inventory, i) ==> Listed(inventory + more, i)
  {
    forall i | Listed(inventory, i)
      ensures Listed(inventory + more, i)
    {
      var k :| 0 <= k < |inventory| && inventory[k].index == i;
      assert (inventory + more)[k].index == i;
    }
  }

  lemma {:induction false} ScanCounts(codec: Codec, dir: Dir, size: nat, last: nat)
    ensures var inventory := ScanUpTo(codec, dir, size, last);
            && |inventory| == CountUpTo(Files(dir), last) + CountUpTo(Specials(dir), last)
            && TotalSize(inventory) >= SumUpTo(FileBytes(dir), last)
            && (CountUpTo(Specials(dir), last) == 0 ==> TotalSize(inventory) == SumUpTo(FileBytes(dir), last))
  {
    if last > 0 {
      ScanCounts(codec, dir, size, last - 1);
      var before, now := ScanUpTo(codec, dir, size, last - 1), ScanUpTo(codec, dir, size, last);
      assert Exists(At(dir, last)) ==> now[..|now| - 1] == before;
      assert !Exists(At(dir, last)) ==> now == before;
    }
  }

  lemma {:induction false} SlotsPartition(dir: Dir, n: nat)
    ensures CountUpTo(Files(dir), n) + CountUpTo(Missing(dir), n) + CountUpTo(Unreadables(dir), n) == n
  {
    if n > 0 {
      SlotsPartition(dir, n - 1);
    }
  }

  /** available + missing + unreadable is always the configured count. */
  lemma SnapshotIsComplete(dir: Dir, config: Config)
    ensures var s := Observation(dir, config);
            s.available + s.missing + s.unreadable == s.configured == config.count
  {
    SlotsPartition(dir, config.count);
  }

  /** The manager counts the same files as the plain view exactly when no slot holds something that
      exists without being a regular file. If moreover every slot could be read and the sizes fit in
      64 bits, the two agree on releasable bytes and on health. */
  lemma ViewsAgree(codec: Codec, dir: Dir, config: Config)
    ensures var inventory := Scan(codec, dir, config);
            var plain := Observation(dir, config);
            && (|inventory| == plain.available <==> forall i :: 1 <= i <= config.count ==> !Specials(dir)(i))
            && ((forall i :: 1 <= i <= config.count ==> !Specials(dir)(i) && !Unreadables(dir)(i))
                && TotalSize(inventory) < U64_LIMIT ==>
                && TotalSize(inventory) == plain.releasable
                && Evaluate(ConfiguredBytes(config), TotalSize(inventory)) == plain.health)
  {
    ScanCounts(codec, dir, config.size, config.count);
    NoneCounted(Specials(dir), config.count);
    NoneCounted(Unreadables(dir), config.count);
  }

  /** A directory in a slot's place: the inventory lists it, the plain view does not. */
  lemma SpecialSlotDivides(codec: Codec, size: u64, len: nat)
    ensures var dir := map[SlotName(1) := Special(len)];
            var config := Config(1, size);
            |Scan(codec, dir, config)| == 1 && Observation(dir, config).available == 0
  {
    var dir := map[SlotName(1) := Special(len)];
    ScanCounts(codec, dir, size, 1);
    assert Specials(dir)(1) && !Files(dir)(1);
    assert CountUpTo(Specials(dir), 0) == 0 && CountUpTo(Files(dir), 0) == 0;
  }

  /** Health agrees exactly when no slot is unreadable and whatever else stands in the slots' places does
      not lift the remembered total over a threshold that the files alone stay below. */
  lemma HealthAgreesIff(codec: Codec, dir: Dir, config: Config)
    ensures var total := TotalSize(Scan(codec, dir, config));
            var files := SumUpTo(FileBytes(dir), config.count);
            var pool, plain := ConfiguredBytes(config), Observation(dir, config);
            Evaluate(pool, total) == plain.health <==>
              || pool == 0
              || (plain.unreadable == 0 && (files == 0 ==> total == 0) && (files < pool ==> total < pool))
  {
    ScanCounts(codec, dir, config.size, config.count);
  }

  /** One slot that cannot be read: the manager takes the pool for empty, the plain view does not know. */
  lemma UnreadableSlotDivides(codec: Codec, size: u64)
    requires size > 0
    ensures var dir := map[SlotName(1) := Unreadable];
            var config := Config(1, size);
            && Evaluate(ConfiguredBytes(config), TotalSize(Scan(codec, dir, config))) == Empty
            && Observation(dir, config).health == Indeterminate
  {
    var dir: Dir := map[SlotName(1) := Unreadable];
    assert At(dir, 1) == Some(Unreadable);
    assert ScanUpTo(codec, dir, size, 1) == ScanUpTo(codec, dir, size, 0) == [];
    assert CountUpTo(Unreadables(dir), 1) == CountUpTo(Unreadables(dir), 0) + 1;
  }

  // ---------- releasing, seen from the inventory ----------

  function Sizes(dir: Dir): nat -> nat {
    (i: nat) => Size(At(dir, i))
  }

  lemma {:induction false} ScanSumsSizes(codec: Codec, dir: Dir, size: nat, last: nat)
    ensures TotalSize(ScanUpTo(codec, dir, size, last)) == SumUpTo(Sizes(dir), last)
  {
    if last > 0 {
      ScanSumsSizes(codec, dir, size, last - 1);
      var before, now := ScanUpTo(codec, dir, size, last - 1), ScanUpTo(codec, dir, size, last);
      assert Exists(At(dir, last)) ==> now[..|now| - 1] == before;
      assert !Exists(At(dir, last)) ==> now == before;
    }
  }

  lemma {:induction false} SumsAgree(f: nat -> nat, g: nat -> nat, n: nat)
    requires forall i :: 1 <= i <= n ==> f(i) == g(i)
    ensures SumUpTo(f, n) == SumUpTo(g, n)
  {
    if n > 0 {
      SumsAgree(f, g, n - 1);
    }
  }

  lemma {:induction false} SumWithoutSlot(dir: Dir, slot: u32, n: u32)
    requires 1 <= slot <= n
    ensures SumUpTo(Sizes(Put(dir, SlotName(slot), None)), n) + Size(At(dir, slot)) == SumUpTo(Sizes(dir), n)
    decreases n
  {
    var after := Put(dir, SlotName(slot), None);
    forall i: u32 {
      PutAt(dir, slot, None, i);
    }
    if slot == n {
      SumsAgree(Sizes(after), Sizes(dir), n - 1);
    } else {
      SumWithoutSlot(dir, slot, n - 1);
    }
  }

  lemma {:induction false} ReleaseLowersSum(dir: Dir, indices: seq<nat>, unlink: nat -> bool, report: ReleaseReport,
                                            n: u32)
    requires forall k :: 0 <= k < |indices| ==> 1 <= indices[k] <= n
    ensures var (after, r) := ReleaseAll(dir, indices, unlink, report);
            r.freed >= report.freed
            && SumUpTo(Sizes(after), n) + (r.freed - report.freed) == SumUpTo(Sizes(dir), n)
    decreases |indices|
  {
    if indices != [] {
      var (d, r) := ReleaseOne(dir, indices[0], unlink(indices[0]), report);
      SumWithoutSlot(dir, indices[0], n);
      ReleaseLowersSum(d, indices[1..], unlink, r, n);
    }
  }

  /** An inventory lists only slots the manager is configured for; every scan does. */
  ghost predicate InRange(inventory: seq<BallastFile>, count: nat) {
    forall k :: 0 <= k < |inventory| ==> 1 <= inventory[k].index <= count
  }

  lemma ScanInRange(codec: Codec, dir: Dir, config: Config)
    ensures InRange(Scan(codec, dir, config), config.count)
  {
    ScanMirrors(codec, dir, config.size, config.count);
  }

  lemma TargetsInRange(inventory: seq<BallastFile>, limit: nat, count: nat)
    requires InRange(inventory, limit)
    ensures forall k :: 0 <= k < |Take(Descending(inventory), count)| ==>
      1 <= Take(Descending(inventory), count)[k] <= limit
  {
    var targets := Take(Descending(inventory), count);
    forall k | 0 <= k < |targets|
      ensures 1 <= targets[k] <= limit
    {
      assert targets[k] == inventory[|inventory| - 1 - k].index;
    }
  }

  /** Whatever a manager remembers, a release lowers the bytes really in the slots by exactly what it
      reports freed. */
  lemma ReleaseLowersSlots(codec: Codec, dir: Dir, config: Config, inventory: seq<BallastFile>,
                           count: nat, unlink: nat -> bool)
    requires InRange(inventory, config.count)
    ensures var (after, report) := Release(dir, inventory, count, unlink);
            TotalSize(Scan(codec, after, config)) + report.freed == TotalSize(Scan(codec, dir, config))
  {
    var targets := Take(Descending(inventory), count);
    var after := ReleaseAll(dir, targets, unlink, EMPTY_RELEASE).0;
    TargetsInRange(inventory, config.count, count);
    ReleaseLowersSum(dir, targets, unlink, EMPTY_RELEASE, config.count);
    ScanSumsSizes(codec, dir, config.size, config.count);
    ScanSumsSizes(codec, after, config.size, config.count);
  }

  /** The remembered total drops by exactly the bytes reported freed if and only if it was right. */
  lemma ReleaseLowersInventoryIff(codec: Codec, dir: Dir, config: Config, inventory: seq<BallastFile>,
                                  count: nat, unlink: nat -> bool)
    requires InRange(inventory, config.count)
    ensures var (after, report) := Release(dir, inventory, count, unlink);
            TotalSize(Scan(codec, after, config)) + report.freed == TotalSize(inventory)
            <==> TotalSize(inventory) == TotalSize(Scan(codec, dir, config))
  {
    ReleaseLowersSlots(codec, dir, config, inventory, count, unlink);
  }

  /** A manager that remembers one file, gone in the meantime, frees nothing by a release while its
      remembered total drops to nothing. */
  lemma StaleTotalDropsUnreported(codec: Codec, dir: Dir, config: Config, file: BallastFile, unlink: nat -> bool)
    requires 1 <= file.index <= config.count && file.size > 0
    requires forall i :: 1 <= i <= config.count ==> At(dir, i) == None
    ensures var (after, report) := Release(dir, [file], 1, unlink);
            report.freed == 0 && TotalSize(Scan(codec, after, config)) == 0 < TotalSize([file])
  {
    ReleaseLowersSlots(codec, dir, config, [file], 1, unlink);
    NothingInEmpty(codec, dir, config.size, config.count);
    var (after, report) := Release(dir, [file], 1, unlink);
    assert TotalSize(Scan(codec, after, config)) + report.freed == TotalSize(Scan(codec, dir, config)) == 0;
    assert TotalSize([file]) == TotalSize([]) + file.size by {
      assert [file][..0] == [];
    }
  }

  lemma NothingInEmpty(codec: Codec, dir: Dir, size: nat, n: nat)
    requires forall i :: 1 <= i <= n ==> At(dir, i) == None
    ensures TotalSize(ScanUpTo(codec, dir, size, n)) == 0
  {
    ScanSumsSizes(codec, dir, size, n);
    NoSizes(dir, n);
  }

  lemma {:induction false} NoSizes(dir: Dir, n: nat)
    requires forall i :: 1 <= i <= n ==> At(dir, i) == None
    ensures SumUpTo(Sizes(dir), n) == 0
  {
    if n > 0 {
      NoSizes(dir, n - 1);
    }
  }
}
