/** The live slots of a pool form a prefix 1..m: exactly when each call keeps that true, and what keeps
    it true over whole runs. */
module Prefix {
  import opened Basics
  import opened Header
  import opened SlotNames
  import opened Pool
  import opened Accounting
  import opened Writes
  import opened Conservation

  /** Slots 1..m hold files that verify; no other numbered slot exists at all. */
  ghost predicate Tidy(codec: Codec, size: nat, dir: Dir, m: nat) {
    && m < U32_LIMIT
    && forall i: u32 :: if 1 <= i <= m then Intact(codec, At(dir, i), i, size) else At(dir, i) == None
  }

  ghost predicate IsPrefix(codec: Codec, size: nat, dir: Dir) {
    exists m :: Tidy(codec, size, dir, m)
  }

  // ---------- filling ----------

  /** The end of the unbroken stretch of `p` after m, within a bound. */
  function Stretch(p: nat -> bool, m: nat, bound: nat): (k: nat)
    requires m <= bound
    ensures m <= k <= bound
    ensures forall i :: m < i <= k ==> p(i)
    ensures k < bound ==> !p(k + 1)
    decreases bound - m
  {
    if m < bound && p(m + 1) then Stretch(p, m + 1, bound) else m
  }

  /** Slots past m now hold what `added` says; the others are as before. */
  ghost predicate Adds(before: Dir, after: Dir, m: nat, added: nat -> Option<Node>) {
    forall i: u32 :: At(after, i) == if i <= m then At(before, i) else added(i)
  }

  /** Whatever was added past m verifies, and no slot was left out below an added one. */
  ghost predicate Unbroken(codec: Codec, size: nat, m: nat, added: nat -> Option<Node>) {
    && (forall i: u32 :: m < i && added(i).Some? ==> Intact(codec, added(i), i, size))
    && (forall i: u32, j: u32 :: m < i < j && added(j).Some? ==> added(i).Some?)
  }

  /** Adding to a prefix leaves a prefix exactly when the addition is unbroken. */
  lemma AdditionIsPrefixIff(codec: Codec, size: nat, before: Dir, after: Dir, m: nat, added: nat -> Option<Node>,
                            bound: u32)
    requires Tidy(codec, size, before, m) && Adds(before, after, m, added)
    requires m <= bound && forall i: u32 :: bound < i ==> added(i) == None
    ensures IsPrefix(codec, size, after) <==> Unbroken(codec, size, m, added)
  {
    if Unbroken(codec, size, m, added) {
      var there := (i: nat) => added(i).Some?;
      var k := Stretch(there, m, bound);
      forall i: u32
        ensures if 1 <= i <= k then Intact(codec, At(after, i), i, size) else At(after, i) == None
      {
        if m < i <= k {
          assert there(i);
        } else if k < i <= bound {
          var hole: u32 := k + 1;
          assert !there(hole);
        }
      }
      assert Tidy(codec, size, after, k);
    } else if IsPrefix(codec, size, after) {
      var k: nat :| Tidy(codec, size, after, k);
      forall i: u32 | m < i
        ensures added(i) == At(after, i)
      {
      }
    }
  }

  // What a pass will do in a tidy pool, read off the settings and the environment's answers alone:
  // slots 1..m are skipped (those the pass visits), and every later slot is absent.

  /** The free bytes when a pass from live slots 1..m arrives at slot i > m. */
  function Room(job: Job, m: nat, free: int, i: u32): int
    decreases i
  {
    if i <= m + 1 then free
    else Room(job, m, free, i - 1) - if CreateFile(job, i - 1).Refused? then 0 else job.fate(i - 1).cost
  }

  predicate FindsLow(job: Job, m: nat, free: int, i: u32) {
    job.checked && job.fate(i).low(Room(job, m, free, i))
  }

  /** Nothing at slot i ends the pass. */
  predicate GoesOn(job: Job, single: bool, m: nat, free: int, i: u32) {
    && !FindsLow(job, m, free, i)
    && !CreateFile(job, i).NoSpace?
    && !(single && CreateFile(job, i).Written?)
  }

  ghost predicate Reaches(job: Job, single: bool, m: nat, free: int, j: u32) {
    forall l: u32 :: m < l < j ==> GoesOn(job, single, m, free, l)
  }

  /** The pass will create slot j. */
  ghost predicate WillCreate(job: Job, single: bool, m: nat, free: int, j: nat) {
    m < j <= job.config.count && CreateFile(job, j).Written?
    && Reaches(job, single, m, free, j) && !FindsLow(job, m, free, j)
  }

  /** Creation is broken at some slot past the live ones, works at a later slot, and nothing in between
      stops the pass. */
  ghost predicate StepsOver(job: Job, single: bool, m: nat, free: int) {
    exists i: u32, j: u32 :: StepsFromTo(job, single, m, free, i, j)
  }

  ghost predicate StepsFromTo(job: Job, single: bool, m: nat, free: int, i: u32, j: u32) {
    m < i < j && i <= job.config.count && CreateFile(job, i).Broke? && WillCreate(job, single, m, free, j)
  }

  /** What the pass will leave in a slot past m that was absent. */
  ghost function Foreseen(job: Job, single: bool, m: nat, free: int, i: nat): Option<Node> {
    if m < i <= job.config.count && Reaches(job, single, m, free, i) && !FindsLow(job, m, free, i) then
      match CreateFile(job, i)
      case Written(file) => Some(file)
      case Refused => None
      case _ => job.fate(i).left
    else None
  }

  ghost function Leftovers(job: Job, single: bool, m: nat, free: int): nat -> Option<Node> {
    (i: nat) => Foreseen(job, single, m, free, i)
  }

  /** What a visit of an absent slot does. */
  lemma AbsentVisit(job: Job, single: bool, i: u32, free: int)
    ensures var v := VisitSlot(job, i, None, free);
            var low := job.checked && job.fate(i).low(free);
            && (Halts(single, v.outcome) <==>
                 low || CreateFile(job, i).NoSpace? || (single && CreateFile(job, i).Written?))
            && (v.outcome == Created <==> !low && CreateFile(job, i).Written?)
            && (v.outcome == Outcome.Failed <==> !low && (CreateFile(job, i).Broke? || CreateFile(job, i).Refused?))
            && (!low ==> v.free == free - if CreateFile(job, i).Refused? then 0 else job.fate(i).cost)
  {
  }

  /** Where a pass that has reached slot j goes next. */
  lemma NextArrival(job: Job, single: bool, s: Fill, j: u32)
    requires s.next == 1 && 1 <= j < job.config.count && j < FillFrom(job, single, s).next
    ensures var v := VisitSlot(job, j, At(s.dir, j), StateAt(job, single, s, j).free);
            && VisitAt(job, single, s, j) == v
            && (j + 1 < FillFrom(job, single, s).next <==> !Halts(single, v.outcome))
            && (j + 1 < FillFrom(job, single, s).next ==> StateAt(job, single, s, j + 1).free == v.free)
  {
    SlotAfterPass(job, single, s, j);
    PassStep(job, single, s, j);
  }

  lemma {:induction false} LiveSlotsAreSkipped(job: Job, single: bool, s: Fill, m: nat, j: u32)
    requires s.next == 1 && Tidy(job.codec, job.config.size, s.dir, m)
    requires 1 <= j <= m + 1 && j <= job.config.count
    ensures j < FillFrom(job, single, s).next && StateAt(job, single, s, j).free == s.free
    decreases j
  {
    if j > 1 {
      LiveSlotsAreSkipped(job, single, s, m, j - 1);
      NextArrival(job, single, s, j - 1);
    }
  }

  /** The pass arrives at a slot past the live ones exactly when nothing stopped it before, and then
      with the room foreseen. */
  lemma {:induction false} TidyTrajectory(job: Job, single: bool, s: Fill, m: nat, j: u32)
    requires s.next == 1 && Tidy(job.codec, job.config.size, s.dir, m)
    requires m < j <= job.config.count
    ensures j < FillFrom(job, single, s).next <==> Reaches(job, single, m, s.free, j)
    ensures j < FillFrom(job, single, s).next ==> StateAt(job, single, s, j).free == Room(job, m, s.free, j)
    decreases j
  {
    if j == m + 1 {
      LiveSlotsAreSkipped(job, single, s, m, j);
    } else {
      TidyTrajectory(job, single, s, m, j - 1);
      ReachesOneMore(job, single, m, s.free, j);
      if j - 1 < FillFrom(job, single, s).next {
        NextArrival(job, single, s, j - 1);
        AbsentVisit(job, single, j - 1, Room(job, m, s.free, j - 1));
      }
    }
  }

  lemma ReachesOneMore(job: Job, single: bool, m: nat, free: int, j: u32)
    requires m + 1 < j
    ensures Reaches(job, single, m, free, j) <==>
            Reaches(job, single, m, free, j - 1) && GoesOn(job, single, m, free, j - 1)
  {
  }

  /** What the pass leaves in each slot. */
  lemma SlotAsForeseen(job: Job, single: bool, s: Fill, m: nat, i: u32)
    requires s.next == 1 && Tidy(job.codec, job.config.size, s.dir, m)
    ensures At(FillFrom(job, single, s).dir, i) == if i <= m then At(s.dir, i) else Foreseen(job, single, m, s.free, i)
  {
    SlotAfterPass(job, single, s, i);
    if m < i <= job.config.count {
      TidyTrajectory(job, single, s, m, i);
    }
  }

  /** From live slots 1..m, whatever faults it meets, a pass leaves a prefix if and only if what the
      environment will make it leave past them verifies and has no gap. */
  lemma FillKeepsPrefixIff(job: Job, single: bool, s: Fill, m: nat)
    requires s.next == 1 && Tidy(job.codec, job.config.size, s.dir, m)
    ensures IsPrefix(job.codec, job.config.size, FillFrom(job, single, s).dir)
            <==> Unbroken(job.codec, job.config.size, m, Leftovers(job, single, m, s.free))
  {
    forall i: u32 {
      SlotAsForeseen(job, single, s, m, i);
    }
    AdditionIsPrefixIff(job.codec, job.config.size, s.dir, FillFrom(job, single, s).dir, m,
                        Leftovers(job, single, m, s.free), if m <= job.config.count then job.config.count else m);
  }

  /** Failed creations clean up after themselves and successful ones get their blocks. */
  ghost predicate CleansUp(job: Job) {
    && Lawful(job.codec)
    && forall i: u32 :: Allocated(job, i) && job.fate(i).left == None
  }

  /** A refusal is a matter of the file size alone. */
  lemma RefusalIsUniform(job: Job, i: u32, j: u32)
    ensures CreateFile(job, i).Refused? <==> CreateFile(job, j).Refused?
  {
  }

  lemma CleanLeftover(job: Job, single: bool, m: nat, free: int, i: u32)
    requires CleansUp(job)
    ensures var left := Foreseen(job, single, m, free, i);
            && (left.Some? <==> WillCreate(job, single, m, free, i))
            && (left.Some? ==> Intact(job.codec, left, i, job.config.size))
  {
    assert Allocated(job, i) && job.fate(i).left == None;
    if WillCreate(job, single, m, free, i) {
      AbsentVisit(job, single, i, Room(job, m, free, i));
      CreatedIsIntact(job, i, None, Room(job, m, free, i));
    }
  }

  /** Where failed creations clean up, that means: no broken creation is stepped over to a working one. */
  lemma CleanFillIff(job: Job, single: bool, m: nat, free: int)
    requires CleansUp(job)
    ensures Unbroken(job.codec, job.config.size, m, Leftovers(job, single, m, free))
            <==> !StepsOver(job, single, m, free)
  {
    var added := Leftovers(job, single, m, free);
    forall i: u32 {
      CleanLeftover(job, single, m, free, i);
    }
    if StepsOver(job, single, m, free) {
      var i: u32, j: u32 :| StepsFromTo(job, single, m, free, i, j);
      assert added(i) == None && added(j).Some?;
    } else {
      forall i: u32, j: u32 | m < i < j && added(j).Some?
        ensures added(i).Some?
      {
        assert Reaches(job, single, m, free, i) && GoesOn(job, single, m, free, i);
        RefusalIsUniform(job, i, j);
        assert !StepsFromTo(job, single, m, free, i, j);
      }
    }
  }

  /** Stepping over happens: from an empty pool of two, slot 1 fails for a reason other than lack of
      space, slot 2 is created. */
  lemma SoftFailureLeavesGap(job: Job, free: int)
    requires CleansUp(job) && !job.checked && job.config.count == 2 && HEADER_SIZE <= job.config.size
    requires job.skipFallocate && job.fate(1).random.Broken? && job.fate(2).random.Done?
    requires HeaderBuffer(job.codec, 2, job.config.size, job.fate(2).createdAt).Some?
    ensures !IsPrefix(job.codec, job.config.size, FillFrom(job, false, Fill(map[], free, EMPTY_REPORT, 1)).dir)
  {
    var i: u32, j: u32 := 1, 2;
    assert CreateFile(job, i).Broke? && CreateFile(job, j).Written?;
    assert GoesOn(job, false, 0, free, i) && Reaches(job, false, 0, free, j);
    assert StepsFromTo(job, false, 0, free, i, j);
    var s := Fill(map[], free, EMPTY_REPORT, 1);
    assert Tidy(job.codec, job.config.size, s.dir, 0);
    CleanFillIff(job, false, 0, free);
    FillKeepsPrefixIff(job, false, s, 0);
  }

  /** So does a failed creation whose cleanup fails too: something that does not verify stays. */
  lemma FailedCleanupLeavesJunk(job: Job, single: bool, free: int)
    requires !job.checked && job.config.count >= 1 && (CreateFile(job, 1).NoSpace? || CreateFile(job, 1).Broke?)
    requires job.fate(1).left.Some? && !Intact(job.codec, job.fate(1).left, 1, job.config.size)
    ensures !IsPrefix(job.codec, job.config.size, FillFrom(job, single, Fill(map[], free, EMPTY_REPORT, 1)).dir)
  {
    var s, i: u32 := Fill(map[], free, EMPTY_REPORT, 1), 1;
    assert Tidy(job.codec, job.config.size, s.dir, 0);
    FillKeepsPrefixIff(job, single, s, 0);
    assert Leftovers(job, single, 0, free)(i) == job.fate(1).left;
  }

  // ---------- removing ----------

  /** The removed slots are gone, all others as before. */
  ghost predicate Removes(before: Dir, after: Dir, removed: nat -> bool) {
    forall i: u32 :: At(after, i) == if removed(i) then None else At(before, i)
  }

  /** Of the slots 1..m, one is removed below another that stays. */
  ghost predicate LeavesHole(m: nat, removed: nat -> bool) {
    exists i: u32, j: u32 :: 1 <= i < j <= m && removed(i) && !removed(j)
  }

  /** Taking slots away from a prefix leaves a prefix exactly when none goes below one that stays. */
  lemma RemovalIsPrefixIff(codec: Codec, size: nat, before: Dir, after: Dir, m: nat, removed: nat -> bool)
    requires Tidy(codec, size, before, m) && Removes(before, after, removed)
    ensures IsPrefix(codec, size, after) <==> !LeavesHole(m, removed)
  {
    if LeavesHole(m, removed) {
      var i: u32, j: u32 :| 1 <= i < j <= m && removed(i) && !removed(j);
      assert At(after, i) == None && At(after, j).Some?;
    } else {
      var kept := (i: nat) => !removed(i);
      var k := Stretch(kept, 0, m);
      forall i: u32
        ensures if 1 <= i <= k then Intact(codec, At(after, i), i, size) else At(after, i) == None
      {
        if 1 <= i <= k {
          assert kept(i);
        } else if k < i <= m {
          var hole: u32 := k + 1;
          assert !kept(hole);
          assert removed(i);
        }
      }
      assert Tidy(codec, size, after, k);
    }
  }

  /** Slots lo+1..hi, highest first. */
  function Countdown(hi: nat, lo: nat): seq<nat>
    requires lo <= hi
  {
    seq(hi - lo, k requires 0 <= k < hi - lo => hi - k)
  }

  lemma {:induction false} ReleaseCountdown(dir: Dir, hi: u32, lo: nat, unlink: nat -> bool, report: ReleaseReport)
    requires lo <= hi
    ensures var after := ReleaseAll(dir, Countdown(hi, lo), unlink, report).0;
            forall i: u32 :: At(after, i) == if lo < i <= hi && unlink(i) then None else At(dir, i)
    decreases hi - lo
  {
    if lo < hi {
      var (d, r) := ReleaseOne(dir, hi, unlink(hi), report);
      assert Countdown(hi, lo)[0] == hi && Countdown(hi, lo)[1..] == Countdown(hi - 1, lo);
      forall i: u32 {
        PutAt(dir, hi, None, i);
      }
      ReleaseCountdown(d, hi - 1, lo, unlink, r);
    }
  }

  /** An inventory taken when the live slots were 1..k. */
  ghost predicate Remembers(inventory: seq<BallastFile>, k: nat) {
    |inventory| == k && forall a :: 0 <= a < k ==> inventory[a].index == a + 1
  }

  lemma {:induction false} ScanOfTidy(codec: Codec, size: nat, dir: Dir, m: nat, last: u32)
    requires Tidy(codec, size, dir, m)
    ensures Remembers(ScanUpTo(codec, dir, size, last), if last < m then last else m)
    decreases last
  {
    if last > 0 {
      ScanOfTidy(codec, size, dir, m, last - 1);
    }
  }

  /** The slots taken by a release of `count` files from a memory of 1..k, where `unlink` says which
      removals succeed. */
  function Taken(k: nat, count: nat, unlink: nat -> bool): nat -> bool {
    (i: nat) => k - Min(count, k) < i <= k && unlink(i)
  }

  /** A release by a manager that remembers slots 1..k, while slots 1..m are live, keeps the live slots
      a prefix if and only if none that can be removed lies below a live one that stays: because its
      removal fails, or because the manager does not know of it. */
  lemma ReleaseKeepsPrefixIff(codec: Codec, size: nat, dir: Dir, m: nat,
                              inventory: seq<BallastFile>, k: u32, count: nat, unlink: nat -> bool)
    requires Tidy(codec, size, dir, m) && Remembers(inventory, k)
    ensures IsPrefix(codec, size, Release(dir, inventory, count, unlink).0)
            <==> !LeavesHole(m, Taken(k, count, unlink))
  {
    var after := Release(dir, inventory, count, unlink).0;
    var lo := k - Min(count, k);
    assert Take(Descending(inventory), count) == Countdown(k, lo);
    ReleaseCountdown(dir, k, lo, unlink, EMPTY_RELEASE);
    assert Removes(dir, after, Taken(k, count, unlink));
    RemovalIsPrefixIff(codec, size, dir, after, m, Taken(k, count, unlink));
  }

  lemma FaultlessHole(m: u32, k: nat, count: nat, unlink: nat -> bool)
    requires forall i :: unlink(i)
    ensures LeavesHole(m, Taken(k, count, unlink)) <==> k < m && 0 < k && 0 < count
  {
    var taken := Taken(k, count, unlink);
    if k < m && 0 < k && 0 < count {
      var i: u32 := k;
      assert unlink(i) && k - Min(count, k) < i;
      assert taken(i) && !taken(m);
    }
  }

  /** When every removal succeeds, what is left is whether the manager is behind; a current inventory
      leaves exactly 1..m-n. */
  lemma FaultlessRelease(codec: Codec, size: nat, dir: Dir, m: nat,
                         inventory: seq<BallastFile>, k: u32, count: nat, unlink: nat -> bool)
    requires Tidy(codec, size, dir, m) && Remembers(inventory, k)
    requires forall i :: unlink(i)
    ensures LeavesHole(m, Taken(k, count, unlink)) <==> k < m && 0 < k && 0 < count
    ensures k == m ==> Tidy(codec, size, Release(dir, inventory, count, unlink).0, m - Min(count, m))
  {
    FaultlessHole(m, k, count, unlink);
    var lo := k - Min(count, k);
    assert Take(Descending(inventory), count) == Countdown(k, lo);
    ReleaseCountdown(dir, k, lo, unlink, EMPTY_RELEASE);
  }

  /** One manager replenishes slot 2, another, which last looked when only slot 1 was live, releases one
      file, and slot 2 is left without slot 1. */
  lemma StaleReleaseLeavesGap(codec: Codec, size: nat, dir: Dir, inventory: seq<BallastFile>, unlink: nat -> bool)
    requires Tidy(codec, size, dir, 2) && Remembers(inventory, 1) && unlink(1)
    ensures !IsPrefix(codec, size, Release(dir, inventory, 1, unlink).0)
  {
    var i: u32, j: u32, taken := 1, 2, Taken(1, 1, unlink);
    assert taken(i) && !taken(j);
    ReleaseKeepsPrefixIff(codec, size, dir, 2, inventory, 1, 1, unlink);
  }

  /** A current inventory does not help when a removal fails: of slots 1 and 2, the second cannot be
      removed, the release goes on, and slot 1 is removed below it. */
  lemma FailedRemovalLeavesGap(codec: Codec, config: Config, dir: Dir, unlink: nat -> bool)
    requires Tidy(codec, config.size, dir, 2) && config.count >= 2 && unlink(1) && !unlink(2)
    ensures !IsPrefix(codec, config.size, Release(dir, Scan(codec, dir, config), 2, unlink).0)
  {
    var i: u32, j: u32, taken := 1, 2, Taken(2, 2, unlink);
    assert taken(i) && !taken(j);
    ScanOfTidy(codec, config.size, dir, 2, config.count);
    ReleaseKeepsPrefixIff(codec, config.size, dir, 2, Scan(codec, dir, config), 2, 2, unlink);
  }

  /** The slots that pruning to a count removes. */
  function Pruned(count: nat, unlink: string -> bool): nat -> bool {
    (i: nat) => count < i < U32_LIMIT && unlink(SlotName(i))
  }

  /** Pruning to any count leaves a prefix if and only if no slot it removes lies below one whose removal
      fails; exactly the slots within the count stay if and only if all others can be removed. */
  lemma PruneKeepsPrefixIff(codec: Codec, size: nat, dir: Dir, m: nat, count: u32, unlink: string -> bool)
    requires Tidy(codec, size, dir, m)
    ensures var after := Prune(dir, count, unlink);
            && (IsPrefix(codec, size, after) <==> !LeavesHole(m, Pruned(count, unlink)))
            && (Tidy(codec, size, after, Min(m, count)) <==> forall i: u32 :: count < i <= m ==> unlink(SlotName(i)))
  {
    var after := Prune(dir, count, unlink);
    PruneRemoves(codec, size, dir, m, count, unlink);
    forall i: u32 | count < i <= m
      ensures At(after, i) == None <==> unlink(SlotName(i))
    {
      assert Pruned(count, unlink)(i) <==> unlink(SlotName(i));
    }
    RemovalIsPrefixIff(codec, size, dir, after, m, Pruned(count, unlink));
  }

  lemma PruneRemoves(codec: Codec, size: nat, dir: Dir, m: nat, count: u32, unlink: string -> bool)
    requires Tidy(codec, size, dir, m)
    ensures Removes(dir, Prune(dir, count, unlink), Pruned(count, unlink))
  {
    forall i: u32 {
      PruneOnSlots(dir, count, unlink, i);
    }
  }

  /** A file that survived pruning counts as live again when the count grows back: the live slots are
      then a prefix if and only if no removed slot lies below a survivor. */
  lemma ShrinkThenGrow(codec: Codec, size: nat, dir: Dir, m: nat, small: u32, unlink: string -> bool,
                       large: u32, again: string -> bool)
    requires Tidy(codec, size, dir, m) && m <= large
    ensures IsPrefix(codec, size, Prune(Prune(dir, small, unlink), large, again))
            <==> !LeavesHole(m, Pruned(small, unlink))
  {
    var shrunk := Prune(dir, small, unlink);
    PruneRemoves(codec, size, dir, m, small, unlink);
    forall i: u32 {
      PruneOnSlots(shrunk, large, again, i);
    }
    RemovalIsPrefixIff(codec, size, dir, Prune(shrunk, large, again), m, Pruned(small, unlink));
  }

  /** Of live slots 1 and 2, the count shrinks to 0, slot 1 is removed and slot 2 cannot be; when the count
      is 2 again, slot 2 is live without slot 1. */
  lemma SurvivorLeavesGap(codec: Codec, size: nat, dir: Dir, unlink: string -> bool, again: string -> bool)
    requires Tidy(codec, size, dir, 2) && unlink(SlotName(1)) && !unlink(SlotName(2))
    ensures !IsPrefix(codec, size, Prune(Prune(dir, 0, unlink), 2, again))
  {
    var i: u32, j: u32, removed := 1, 2, Pruned(0, unlink);
    assert removed(i) && !removed(j);
    ShrinkThenGrow(codec, size, dir, 2, 0, unlink, 2, again);
  }

  // ---------- whole runs ----------

  /** The number of live slots of a tidy pool. */
  ghost function Live(codec: Codec, size: nat, dir: Dir): (m: nat)
    ensures IsPrefix(codec, size, dir) ==> Tidy(codec, size, dir, m)
  {
    if IsPrefix(codec, size, dir) then
      var m: nat :| Tidy(codec, size, dir, m);
      m
    else 0
  }

  /** The invariant: the numbered files are exactly the intact slots 1..m, and each manager, whatever its
      count, remembers some earlier (or the present) prefix. */
  ghost predicate InStep(w: World) {
    && w.actors != []
    && IsPrefix(w.actors[0].codec, w.actors[0].config.size, w.dir)
    && forall k :: 0 <= k < |w.actors| ==> Compatible(w.actors[0], w.actors[k])
  }

  ghost predicate Compatible(first: Actor, actor: Actor) {
    && actor.codec == first.codec && actor.config.size == first.config.size
    && |actor.inventory| < U32_LIMIT && Remembers(actor.inventory, |actor.inventory|)
  }

  /** What is taken for granted: one file size for all managers at all times. */
  ghost predicate Admissible(w: World, ev: Event) {
    w.actors != [] &&
    match ev
    case Open(codec, config, _) => codec == w.actors[0].codec && config.size == w.actors[0].config.size
    case Join(codec, config) => codec == w.actors[0].codec && config.size == w.actors[0].config.size
    case By(_, UpdateConfig(config, _)) => config.size == w.actors[0].config.size
    case SetConfig(_, config) => config.size == w.actors[0].config.size
    case _ => true
  }

  /** The exact condition under which one call of `actor` keeps the prefix 1..m. */
  ghost predicate CallKeepsPrefix(actor: Actor, call: Call, m: nat) {
    match call
    case FillSlots(single, _, _, orphanUnlink, gain, free) =>
      && !LeavesHole(m, Pruned(actor.config.count, orphanUnlink))
      && Unbroken(actor.codec, actor.config.size, m, Leftovers(JobOf(actor, call), single, m, free + gain))
    case ReleaseFiles(count, unlink) => !LeavesHole(m, Taken(|actor.inventory|, count, unlink))
    case UpdateConfig(config, unlink) => !LeavesHole(m, Pruned(config.count, unlink))
  }

  /** The slot whose canonical name this is, when it is an orphan that can be removed. */
  function Dropped(name: string, count: nat, unlink: bool): nat -> bool {
    (i: nat) => count < i < U32_LIMIT && name == SlotName(i) && unlink
  }

  /** The exact condition under which one event keeps the prefix. */
  ghost predicate KeepsPrefix(w: World, ev: Event)
    requires w.actors != []
  {
    var m := Live(w.actors[0].codec, w.actors[0].config.size, w.dir);
    match ev
    case Open(_, config, unlink) => !LeavesHole(m, Pruned(config.count, unlink))
    case By(who, call) => who < |w.actors| ==> CallKeepsPrefix(w.actors[who], call, m)
    case RemoveOrphan(who, name, unlink) =>
      who < |w.actors| ==> !LeavesHole(m, Dropped(name, w.actors[who].config.count, unlink))
    case _ => true
  }

  lemma NothingPastCount(job: Job, single: bool, m: nat, free: int)
    requires m >= job.config.count
    ensures Unbroken(job.codec, job.config.size, m, Leftovers(job, single, m, free))
  {
  }

  /** With all live slots within the count, pruning touches none of them. */
  lemma PassWithinCount(job: Job, single: bool, dir: Dir, free: int, m: nat)
    requires Tidy(job.codec, job.config.size, dir, m) && m <= job.config.count
    ensures !LeavesHole(m, Pruned(job.config.count, job.orphanUnlink))
    ensures IsPrefix(job.codec, job.config.size, Pass(job, single, dir, free).dir)
            <==> Unbroken(job.codec, job.config.size, m, Leftovers(job, single, m, free + job.orphanGain))
  {
    PruneKeepsPrefixIff(job.codec, job.config.size, dir, m, job.config.count, job.orphanUnlink);
    FillKeepsPrefixIff(job, single, Start(job, dir, free), m);
  }

  /** With live slots past the count, there is nothing to fill. */
  lemma PassPastCount(job: Job, single: bool, dir: Dir, free: int, m: nat)
    requires Tidy(job.codec, job.config.size, dir, m) && m > job.config.count
    ensures Pass(job, single, dir, free).dir == Prune(dir, job.config.count, job.orphanUnlink)
    ensures Unbroken(job.codec, job.config.size, m, Leftovers(job, single, m, free + job.orphanGain))
  {
    var s := Start(job, dir, free);
    forall i: u32 | 1 <= i <= job.config.count
      ensures Intact(job.codec, At(s.dir, i), i, job.config.size)
    {
      PruneOnSlots(dir, job.config.count, job.orphanUnlink, i);
    }
    FullPoolIsSkipped(job, single, s);
    NothingPastCount(job, single, m, s.free);
  }

  lemma PassKeepsPrefixIff(job: Job, single: bool, dir: Dir, free: int, m: nat)
    requires Tidy(job.codec, job.config.size, dir, m)
    ensures IsPrefix(job.codec, job.config.size, Pass(job, single, dir, free).dir)
            <==> && !LeavesHole(m, Pruned(job.config.count, job.orphanUnlink))
                 && Unbroken(job.codec, job.config.size, m, Leftovers(job, single, m, free + job.orphanGain))
  {
    if m <= job.config.count {
      PassWithinCount(job, single, dir, free, m);
    } else {
      PassPastCount(job, single, dir, free, m);
      PruneKeepsPrefixIff(job.codec, job.config.size, dir, m, job.config.count, job.orphanUnlink);
    }
  }

  lemma CallKeepsPrefixIff(w: World, who: nat, call: Call)
    requires InStep(w) && who < |w.actors|
    ensures IsPrefix(w.actors[0].codec, w.actors[0].config.size, Act(w.dir, w.actors[who], call).0)
            <==> KeepsPrefix(w, By(who, call))
  {
    var actor := w.actors[who];
    assert Compatible(w.actors[0], actor);
    var codec, size := actor.codec, actor.config.size;
    var m := Live(codec, size, w.dir);
    match call {
      case FillSlots(single, _, _, _, _, free) =>
        PassKeepsPrefixIff(JobOf(actor, call), single, w.dir, free, m);
      case ReleaseFiles(count, unlink) =>
        ReleaseKeepsPrefixIff(codec, size, w.dir, m, actor.inventory, |actor.inventory|, count, unlink);
      case UpdateConfig(config, unlink) =>
        PruneKeepsPrefixIff(codec, size, w.dir, m, config.count, unlink);
    }
  }

  lemma OrphanKeepsPrefixIff(codec: Codec, size: nat, dir: Dir, m: nat, name: string, count: nat, unlink: bool)
    requires Tidy(codec, size, dir, m)
    ensures IsPrefix(codec, size, WithoutOrphan(dir, name, count, unlink))
            <==> !LeavesHole(m, Dropped(name, count, unlink))
  {
    var after, dropped := WithoutOrphan(dir, name, count, unlink), Dropped(name, count, unlink);
    forall i: u32
      ensures At(after, i) == if dropped(i) then None else At(dir, i)
    {
      ClaimedIndexOfSlotName(i);
    }
    RemovalIsPrefixIff(codec, size, dir, after, m, dropped);
  }

  /** A scan of a tidy pool remembers a prefix: all of it, up to the manager's count. */
  lemma ScanRemembers(codec: Codec, dir: Dir, config: Config)
    requires IsPrefix(codec, config.size, dir)
    ensures var inventory := Scan(codec, dir, config);
            var m := Live(codec, config.size, dir);
            Remembers(inventory, |inventory|) && |inventory| == if config.count < m then config.count else m
  {
    ScanOfTidy(codec, config.size, dir, Live(codec, config.size, dir), config.count);
  }

  lemma DirKeepsPrefixIff(w: World, ev: Event)
    requires InStep(w) && Admissible(w, ev)
    ensures IsPrefix(w.actors[0].codec, w.actors[0].config.size, Step(w, ev).dir) <==> KeepsPrefix(w, ev)
  {
    var codec, size := w.actors[0].codec, w.actors[0].config.size;
    var m := Live(codec, size, w.dir);
    match ev {
      case Open(_, config, unlink) =>
        PruneKeepsPrefixIff(codec, size, w.dir, m, config.count, unlink);
      case By(who, call) =>
        if who < |w.actors| {
          CallKeepsPrefixIff(w, who, call);
        }
      case RemoveOrphan(who, name, unlink) =>
        if who < |w.actors| {
          OrphanKeepsPrefixIff(codec, size, w.dir, m, name, w.actors[who].config.count, unlink);
        }
      case _ =>
    }
  }

  /** The managers after an event are those before, or those with one joined, or with one changed. */
  lemma ActorsStayCompatible(w: World, ev: Event, k: nat)
    requires InStep(w) && Admissible(w, ev) && k < |Step(w, ev).actors|
    requires IsPrefix(w.actors[0].codec, w.actors[0].config.size, Step(w, ev).dir)
    ensures Compatible(w.actors[0], Step(w, ev).actors[k])
  {
    var next := Step(w, ev);
    if k < |w.actors| {
      assert Compatible(w.actors[0], w.actors[k]);
    }
    if !(k < |w.actors| && next.actors[k] == w.actors[k]) {
      var actor := next.actors[k];
      if actor.inventory == Scan(actor.codec, next.dir, actor.config) {
        ScanRemembers(actor.codec, next.dir, actor.config);
      }
    }
  }

  lemma StepKeepsPrefixIff(w: World, ev: Event)
    requires InStep(w) && Admissible(w, ev)
    ensures InStep(Step(w, ev)) <==> KeepsPrefix(w, ev)
  {
    var next := Step(w, ev);
    DirKeepsPrefixIff(w, ev);
    FirstKeepsSettings(w, ev);
    if KeepsPrefix(w, ev) {
      forall k | 0 <= k < |next.actors|
        ensures Compatible(next.actors[0], next.actors[k])
      {
        ActorsStayCompatible(w, ev, k);
      }
    }
  }

  lemma FirstKeepsSettings(w: World, ev: Event)
    requires InStep(w) && Admissible(w, ev)
    ensures var next := Step(w, ev);
            && next.actors != [] && next.actors[0].codec == w.actors[0].codec
            && next.actors[0].config.size == w.actors[0].config.size
  {
    assert Compatible(w.actors[0], w.actors[0]);
  }

  ghost predicate AllAdmissible(w: World, events: seq<Event>)
    decreases |events|
  {
    events != [] ==> Admissible(w, events[0]) && AllAdmissible(Step(w, events[0]), events[1..])
  }

  ghost predicate AllKeepPrefix(w: World, events: seq<Event>)
    decreases |events|
  {
    events != [] ==> w.actors != [] && KeepsPrefix(w, events[0]) && AllKeepPrefix(Step(w, events[0]), events[1..])
  }

  /** The invariant holds from beginning to end of a run. */
  ghost predicate AlwaysInStep(w: World, events: seq<Event>)
    decreases |events|
  {
    InStep(w) && (events != [] ==> AlwaysInStep(Step(w, events[0]), events[1..]))
  }

  /** Over any run of any number of managers with one file size, through storage-full, low space, failing
      creations, cleanups and removals, and count changes: the numbered files are exactly the intact slots
      1..m all along if and only if every event meets its condition. */
  lemma {:induction false} RunKeepsPrefixIff(w: World, events: seq<Event>)
    requires InStep(w) && AllAdmissible(w, events)
    ensures AlwaysInStep(w, events) <==> AllKeepPrefix(w, events)
    decreases |events|
  {
    if events != [] {
      StepKeepsPrefixIff(w, events[0]);
      if KeepsPrefix(w, events[0]) {
        RunKeepsPrefixIff(Step(w, events[0]), events[1..]);
      } else {
        assert !InStep(Step(w, events[0]));
      }
    }
  }

  // ---------- runs without faults ----------

  /** Plain circumstances: creations fail only for lack of space and clean up, removals succeed. */
  ghost predicate Faultless(actor: Actor, call: Call) {
    match call
    case FillSlots(_, _, _, _, _, _) =>
      var job := JobOf(actor, call);
      CleansUp(job) && forall i: u32 :: Completes(job, i) || OutOfStorage(job, i)
    case ReleaseFiles(_, unlink) => forall i :: unlink(i)
    case UpdateConfig(_, unlink) => forall name :: unlink(name)
  }

  /** Moreover nobody has left more files than this manager knows of. */
  ghost predicate NotBehind(actor: Actor, call: Call, m: nat) {
    match call
    case FillSlots(_, _, _, _, _, _) => m <= actor.config.count
    case ReleaseFiles(_, _) => m <= |actor.inventory|
    case UpdateConfig(_, _) => true
  }

  lemma FaultlessCallKeepsPrefix(actor: Actor, call: Call, m: u32)
    requires Faultless(actor, call) && NotBehind(actor, call, m)
    ensures CallKeepsPrefix(actor, call, m)
  {
    match call {
      case FillSlots(single, _, _, _, gain, free) =>
        forall i: u32 {
          CreationIff(JobOf(actor, call), i);
        }
        CleanFillIff(JobOf(actor, call), single, m, free + gain);
      case ReleaseFiles(count, unlink) =>
        FaultlessHole(m, |actor.inventory|, count, unlink);
      case UpdateConfig(config, unlink) =>
        FaultlessPruneHole(m, config.count, unlink);
    }
  }

  lemma FaultlessPruneHole(m: u32, count: nat, unlink: string -> bool)
    requires forall name :: unlink(name)
    ensures !LeavesHole(m, Pruned(count, unlink))
  {
    var removed := Pruned(count, unlink);
    forall i: u32, j: u32 | 1 <= i < j <= m && removed(i)
      ensures removed(j)
    {
      assert unlink(SlotName(j));
    }
  }

  /** One event in such circumstances. */
  ghost predicate WellBehaved(w: World, ev: Event)
    requires w.actors != []
  {
    var m := Live(w.actors[0].codec, w.actors[0].config.size, w.dir);
    match ev
    case Open(_, _, unlink) => forall name :: unlink(name)
    case By(who, call) => who < |w.actors| ==> Faultless(w.actors[who], call) && NotBehind(w.actors[who], call, m)
    case RemoveOrphan(who, _, _) => who < |w.actors| ==> m <= w.actors[who].config.count
    case _ => true
  }

  lemma WellBehavedKeepsPrefix(w: World, ev: Event)
    requires InStep(w) && WellBehaved(w, ev)
    ensures KeepsPrefix(w, ev)
  {
    var m := Live(w.actors[0].codec, w.actors[0].config.size, w.dir);
    match ev {
      case Open(_, config, unlink) =>
        FaultlessPruneHole(m, config.count, unlink);
      case By(who, call) =>
        if who < |w.actors| {
          FaultlessCallKeepsPrefix(w.actors[who], call, m);
        }
      case _ =>
    }
  }

  ghost predicate AllWellBehaved(w: World, events: seq<Event>)
    decreases |events|
  {
    events != [] ==> w.actors != [] && WellBehaved(w, events[0]) && AllWellBehaved(Step(w, events[0]), events[1..])
  }

  lemma {:induction false} RunKeepsPrefix(w: World, events: seq<Event>)
    requires InStep(w) && AllAdmissible(w, events) && AllWellBehaved(w, events)
    ensures AlwaysInStep(w, events)
    decreases |events|
  {
    if events != [] {
      WellBehavedKeepsPrefix(w, events[0]);
      StepKeepsPrefixIff(w, events[0]);
      RunKeepsPrefix(Step(w, events[0]), events[1..]);
    }
  }

  /** A manager alone in the world, whose inventory is current. */
  ghost predicate Alone(w: World) {
    && InStep(w) && |w.actors| == 1
    && |w.actors[0].inventory| == Live(w.actors[0].codec, w.actors[0].config.size, w.dir) <= w.actors[0].config.count
  }

  /** No numbered file lies past the manager's count. */
  ghost predicate WithinCount(dir: Dir, count: nat) {
    forall i: u32 :: count < i ==> At(dir, i) == None
  }

  lemma FaultlessCallStaysWithin(dir: Dir, actor: Actor, call: Call, m: nat)
    requires Tidy(actor.codec, actor.config.size, dir, m) && m <= actor.config.count
    requires Remembers(actor.inventory, m) && Faultless(actor, call)
    ensures WithinCount(Act(dir, actor, call).0, Act(dir, actor, call).1.count)
  {
    var codec, size, count := actor.codec, actor.config.size, actor.config.count;
    match call {
      case FillSlots(single, _, _, _, _, free) =>
        var job := JobOf(actor, call);
        PruneKeepsPrefixIff(codec, size, dir, m, count, job.orphanUnlink);
        forall i: u32 {
          SlotAsForeseen(job, single, Start(job, dir, free), m, i);
        }
      case ReleaseFiles(n, unlink) =>
        FaultlessRelease(codec, size, dir, m, actor.inventory, m, n, unlink);
      case UpdateConfig(config, unlink) =>
        PruneKeepsPrefixIff(codec, size, dir, m, config.count, unlink);
    }
  }

  /** A manager that acts alone is never behind. */
  lemma FaultlessCallStaysAlone(w: World, call: Call)
    requires Alone(w) && Faultless(w.actors[0], call) && Admissible(w, By(0, call))
    ensures Alone(Step(w, By(0, call)))
  {
    var actor, next := w.actors[0], Step(w, By(0, call));
    var m := Live(actor.codec, actor.config.size, w.dir);
    assert Compatible(actor, actor);
    FaultlessCallKeepsPrefix(actor, call, m);
    StepKeepsPrefixIff(w, By(0, call));
    FaultlessCallStaysWithin(w.dir, actor, call, m);
    var after := next.actors[0];
    ScanRemembers(after.codec, next.dir, after.config);
    var live: u32 := Live(after.codec, after.config.size, next.dir);
    assert live <= after.config.count by {
      assert live > after.config.count ==> At(next.dir, live) == None;
    }
  }

  /** What a call does without faults depends on the manager only through its settings. */
  lemma FaultlessForAll(a: Actor, b: Actor, call: Call)
    requires a.codec == b.codec && a.config.size == b.config.size && a.skipFallocate == b.skipFallocate
    requires Faultless(a, call)
    ensures Faultless(b, call)
  {
    if call.FillSlots? {
      forall i: u32
        ensures Completes(JobOf(a, call), i) == Completes(JobOf(b, call), i)
        ensures OutOfStorage(JobOf(a, call), i) == OutOfStorage(JobOf(b, call), i)
        ensures Allocated(JobOf(a, call), i) == Allocated(JobOf(b, call), i)
      {
      }
      assert JobOf(a, call).fate == JobOf(b, call).fate;
      assert forall i: u32 :: Allocated(JobOf(b, call), i);
    }
  }

  /** Calls whose circumstances can be read off before the run: without faults, at one file size. */
  ghost predicate FaultlessCalls(actor: Actor, calls: seq<Call>) {
    forall k :: 0 <= k < |calls| ==>
      Faultless(actor, calls[k]) && (calls[k].UpdateConfig? ==> calls[k].config.size == actor.config.size)
  }

  function CallsOf(calls: seq<Call>): seq<Event> {
    seq(|calls|, k requires 0 <= k < |calls| => By(0, calls[k]))
  }

  /** A single manager whose creations fail only for lack of space and whose removals succeed keeps the
      live slots exactly 1..m, through storage-full, low space and count changes, over any run. */
  lemma {:induction false} LoneRunKeepsPrefix(w: World, calls: seq<Call>)
    requires Alone(w) && FaultlessCalls(w.actors[0], calls)
    ensures AlwaysInStep(w, CallsOf(calls))
    ensures Alone(Run(w, CallsOf(calls)))
    decreases |calls|
  {
    if calls != [] {
      var events, next := CallsOf(calls), Step(w, By(0, calls[0]));
      assert events[0] == By(0, calls[0]) && events[1..] == CallsOf(calls[1..]);
      FaultlessCallStaysAlone(w, calls[0]);
      forall k | 0 <= k < |calls[1..]|
        ensures Faultless(next.actors[0], calls[1..][k])
        ensures calls[1..][k].UpdateConfig? ==> calls[1..][k].config.size == next.actors[0].config.size
      {
        assert calls[1..][k] == calls[k + 1];
        FaultlessForAll(w.actors[0], next.actors[0], calls[k + 1]);
      }
      LoneRunKeepsPrefix(next, calls[1..]);
    }
  }
}
