/** What a report says about the disk: accounting of a pass under arbitrary faults, the effect of
    pruning on slots, and idempotence of provisioning. */
module Accounting {
  import opened Basics
  import opened Header
  import opened SlotNames
  import opened Pool

  predicate IsError(outcome: Outcome) {
    outcome.LowSpace? || outcome.Exhausted? || outcome.Failed?
  }

  /** The platform allocated as many blocks as the file needs. */
  predicate Allocated(job: Job, i: nat) {
    job.config.size <= job.fate(i).blocks * 512 < U64_LIMIT
  }

  /** A created file passes verification exactly when its blocks were really allocated. */
  lemma CreatedIsIntact(job: Job, index: u32, found: Option<Node>, free: int)
    requires Lawful(job.codec)
    requires VisitSlot(job, index, found, free).outcome.Created?
    ensures var node := VisitSlot(job, index, found, free).node;
            && Size(node) == job.config.size
            && (Intact(job.codec, node, index, job.config.size) <==> Allocated(job, index))
  {
    HeaderRoundTrip(job.codec, index, job.config.size, job.fate(index).createdAt, index, job.config.size);
  }

  /** Two environments that differ at most in how preallocation goes. */
  ghost predicate DifferInPreallocation(job: Job, other: Job) {
    && job.codec == other.codec && job.config == other.config && job.checked == other.checked
    && job.skipFallocate == other.skipFallocate
    && job.orphanUnlink == other.orphanUnlink && job.orphanGain == other.orphanGain
    && forall i :: job.fate(i).(prealloc := Done, seal := Done) == other.fate(i).(prealloc := Done, seal := Done)
  }

  /** A manager told to skip preallocation never depends on it: whole passes in two such environments
      are the same, and a file it creates was written with random data. */
  lemma {:induction false} ForcedRandomData(job: Job, other: Job, single: bool, s: Fill)
    requires job.skipFallocate && DifferInPreallocation(job, other)
    requires 1 <= s.next <= job.config.count + 1
    ensures FillFrom(job, single, s) == FillFrom(other, single, s)
    ensures forall j :: s.next <= j < FillFrom(job, single, s).next && VisitAt(job, single, s, j).outcome.Created? ==>
      job.fate(j).random.Done?
    decreases job.config.count + 1 - s.next
  {
    if s.next <= job.config.count {
      SameVisit(job, other, s.next, At(s.dir, s.next), s.free);
      if !Halts(single, Visiting(job, s).outcome) {
        ForcedRandomData(job, other, single, Advance(job, s));
        LaterVisits(job, single, s);
      }
    }
  }

  lemma SameVisit(job: Job, other: Job, index: u32, found: Option<Node>, free: int)
    requires job.skipFallocate && DifferInPreallocation(job, other)
    ensures VisitSlot(job, index, found, free) == VisitSlot(other, index, found, free)
    ensures VisitSlot(job, index, found, free).outcome.Created? ==> job.fate(index).random.Done?
  {
    assert job.fate(index).(prealloc := Done, seal := Done) == other.fate(index).(prealloc := Done, seal := Done);
  }

  /** Visits after the first are those of the rest of the pass. */
  lemma LaterVisits(job: Job, single: bool, s: Fill)
    requires 1 <= s.next <= job.config.count && !Halts(single, Visiting(job, s).outcome)
    ensures forall j :: s.next < j < FillFrom(job, single, s).next ==>
              VisitAt(job, single, s, j) == VisitAt(job, single, Advance(job, s), j)
  {
  }

  /** Every visited slot is counted exactly once, and bytes count the created files. */
  lemma {:induction false} CountsAddUp(job: Job, single: bool, s: Fill)
    requires 1 <= s.next <= job.config.count + 1
    ensures var r := FillFrom(job, single, s);
            && r.report.created + r.report.skipped + |r.report.errors| - r.next
               == s.report.created + s.report.skipped + |s.report.errors| - s.next
            && r.report.bytes - job.config.size * r.report.created
               == s.report.bytes - job.config.size * s.report.created
    decreases job.config.count + 1 - s.next
  {
    if s.next <= job.config.count {
      var t := Advance(job, s);
      assert t.report.bytes - job.config.size * t.report.created
          == s.report.bytes - job.config.size * s.report.created by {
        assert job.config.size * (s.report.created + 1) == job.config.size * s.report.created + job.config.size;
      }
      if !Halts(single, Visiting(job, s).outcome) {
        CountsAddUp(job, single, t);
      }
    }
  }

  /** Error entries are kept for exactly the visited slots that failed, with the reason. */
  lemma {:induction false} ErrorsMatchVisits(job: Job, single: bool, s: Fill)
    requires 1 <= s.next <= job.config.count + 1
    requires forall e :: e in s.report.errors ==> e.index < s.next
    ensures var r := FillFrom(job, single, s);
            && (forall e :: e in r.report.errors ==> e.index < r.next)
            && (forall j: nat, reason :: j < s.next ==>
                 (SlotError(j, reason) in r.report.errors <==> SlotError(j, reason) in s.report.errors))
            && (forall j: nat, reason :: s.next <= j < r.next ==>
                 (SlotError(j, reason) in r.report.errors
                  <==> IsError(reason) && VisitAt(job, single, s, j).outcome == reason))
    decreases job.config.count + 1 - s.next
  {
    if s.next <= job.config.count {
      var t := Advance(job, s);
      assert forall j: nat, reason :: SlotError(j, reason) in t.report.errors <==>
        SlotError(j, reason) in s.report.errors
        || (j == s.next && IsError(reason) && Visiting(job, s).outcome == reason);
      if !Halts(single, Visiting(job, s).outcome) {
        ErrorsMatchVisits(job, single, t);
        LaterVisits(job, single, s);
      }
    }
  }

  /** A visit that does not halt the pass is followed by the next slot's; any other is the last. */
  lemma {:induction false} PassStep(job: Job, single: bool, s: Fill, j: nat)
    requires 1 <= s.next <= j < FillFrom(job, single, s).next && j <= job.config.count
    ensures var next, t := FillFrom(job, single, s).next, StateAt(job, single, s, j);
            && (j + 1 < next ==>
                 !Halts(single, Visiting(job, t).outcome) && StateAt(job, single, s, j + 1) == Advance(job, t))
            && (j < job.config.count && j + 1 == next ==> Halts(single, Visiting(job, t).outcome))
    decreases j - s.next
  {
    if j > s.next {
      PassStep(job, single, Advance(job, s), j);
    }
  }

  /** A pass runs to the last slot unless a visit halts it, and a halting visit is its last. */
  lemma HaltingIsLast(job: Job, single: bool, s: Fill)
    requires 1 <= s.next <= job.config.count + 1
    ensures var r := FillFrom(job, single, s);
            && (forall j :: s.next <= j < r.next - 1 ==> !Halts(single, VisitAt(job, single, s, j).outcome))
            && (r.next <= job.config.count ==>
                 s.next < r.next && Halts(single, VisitAt(job, single, s, r.next - 1).outcome))
  {
    var r := FillFrom(job, single, s);
    forall j | s.next <= j < r.next
      ensures j < r.next - 1 ==> !Halts(single, VisitAt(job, single, s, j).outcome)
      ensures j == r.next - 1 < job.config.count ==> Halts(single, VisitAt(job, single, s, j).outcome)
    {
      PassStep(job, single, s, j);
    }
  }

  ghost predicate Failed(report: ProvisionReport, i: nat) {
    exists e :: e in report.errors && e.index == i
  }

  /** `provision` under arbitrary faults. With `visited` the length of the prefix of slots it saw:
      every visited slot is counted as created, skipped or failed; one without an error entry holds a
      file that verifies (if it did before, or its blocks were really allocated); slots beyond the
      prefix and all other files are as pruning left them; and the pass stops early only at a slot
      whose error entry says low space or exhausted storage, which is then the last entry's slot. */
  lemma ProvisionAccounting(job: Job, dir: Dir, free: int)
    requires Lawful(job.codec)
    ensures var r := Pass(job, false, dir, free);
            var clean := Prune(dir, job.config.count, job.orphanUnlink);
            var visited := r.next - 1;
            && 0 <= visited <= job.config.count
            && r.report.created + r.report.skipped + |r.report.errors| == visited
            && r.report.bytes == job.config.size * r.report.created
            && (forall e :: e in r.report.errors ==> 1 <= e.index <= visited && IsError(e.reason))
            && (forall i: u32 :: 1 <= i <= visited && !Failed(r.report, i) ==>
                 (Intact(job.codec, At(r.dir, i), i, job.config.size)
                  <==> Intact(job.codec, At(clean, i), i, job.config.size) || Allocated(job, i)))
            && (forall i: u32 :: !(1 <= i <= visited) ==> At(r.dir, i) == At(clean, i))
            && (forall name :: (forall i: u32 :: 1 <= i <= visited ==> name != SlotName(i)) ==>
                 Lookup(r.dir, name) == Lookup(clean, name))
            && (visited < job.config.count ==>
                 visited >= 1 && (SlotError(visited, LowSpace) in r.report.errors
                                  || SlotError(visited, Exhausted) in r.report.errors))
            && (forall e :: e in r.report.errors && (e.reason.LowSpace? || e.reason.Exhausted?) ==>
                 e.index == visited)
  {
    var s := Start(job, dir, free);
    var r := Pass(job, false, dir, free);
    var clean := s.dir;
    PassIsLocal(job, false, s);
    CountsAddUp(job, false, s);
    ErrorsMatchVisits(job, false, s);
    HaltingIsLast(job, false, s);
    forall e | e in r.report.errors
      ensures 1 <= e.index < r.next && IsError(e.reason)
      ensures e.reason.LowSpace? || e.reason.Exhausted? ==> e.index == r.next - 1
    {
      assert SlotError(e.index, e.reason) in r.report.errors;
    }
    forall i: u32 | 1 <= i < r.next && !Failed(r.report, i)
      ensures Intact(job.codec, At(r.dir, i), i, job.config.size)
              <==> Intact(job.codec, At(clean, i), i, job.config.size) || Allocated(job, i)
    {
      VisitedSlot(job, false, s, i);
    }
    if r.next <= job.config.count {
      var last := VisitAt(job, false, s, r.next - 1);
      assert SlotError(r.next - 1, last.outcome) in r.report.errors;
    }
  }

  /** What a visited slot without an error entry holds after the pass. */
  lemma VisitedSlot(job: Job, single: bool, s: Fill, i: u32)
    requires Lawful(job.codec)
    requires 1 <= s.next <= job.config.count + 1 && s.report == EMPTY_REPORT
    requires s.next <= i < FillFrom(job, single, s).next
    requires !Failed(FillFrom(job, single, s).report, i)
    ensures var r := FillFrom(job, single, s);
            Intact(job.codec, At(r.dir, i), i, job.config.size)
            <==> Intact(job.codec, At(s.dir, i), i, job.config.size) || Allocated(job, i)
  {
    var r := FillFrom(job, single, s);
    PassIsLocal(job, single, s);
    ErrorsMatchVisits(job, single, s);
    var v := VisitAt(job, single, s, i);
    assert IsError(v.outcome) ==> SlotError(i, v.outcome) in r.report.errors;
    if v.outcome.Created? {
      CreatedIsIntact(job, i, At(s.dir, i), StateAt(job, single, s, i).free);
    }
  }

  // ---------- pruning ----------

  /** Pruning, seen from a canonical slot: files numbered 0 or above the count go when their removal
      succeeds; live slots and everything that is not a regular file stay. */
  lemma PruneOnSlots(dir: Dir, count: nat, unlink: string -> bool, i: u32)
    ensures At(Prune(dir, count, unlink), i) ==
            if At(dir, i).Some? && At(dir, i).value.Regular? && (i == 0 || i > count) && unlink(SlotName(i))
            then None else At(dir, i)
  {
    ClaimedIndexOfSlotName(i);
  }

  /** A pass leaves nothing behind for a second pruning when the first removed all it should. */
  lemma PassLeavesNoOrphans(job: Job, single: bool, dir: Dir, free: int)
    requires forall name :: job.orphanUnlink(name)
    ensures var r := Pass(job, single, dir, free);
            forall unlink :: Prune(r.dir, job.config.count, unlink) == r.dir
  {
    var s := Start(job, dir, free);
    var r := Pass(job, single, dir, free);
    PassIsLocal(job, single, s);
    forall name | name in r.dir
      ensures !IsOrphan(name, r.dir[name], job.config.count)
    {
      if i: u32 :| 1 <= i < r.next && name == SlotName(i) {
        ClaimedIndexOfSlotName(i);
      } else {
        assert Lookup(r.dir, name) == Lookup(s.dir, name);
      }
    }
  }

  // ---------- idempotence ----------

  ghost predicate AllIntact(codec: Codec, dir: Dir, config: Config) {
    forall i: u32 :: 1 <= i <= config.count ==> Intact(codec, At(dir, i), i, config.size)
  }

  /** A pass over a full pool skips every slot and changes nothing. */
  lemma {:induction false} FullPoolIsSkipped(job: Job, single: bool, s: Fill)
    requires 1 <= s.next <= job.config.count + 1
    requires AllIntact(job.codec, s.dir, job.config)
    ensures var r := FillFrom(job, single, s);
            r == Fill(s.dir, s.free,
                      s.report.(skipped := s.report.skipped + (job.config.count + 1 - s.next)),
                      job.config.count + 1)
    decreases job.config.count + 1 - s.next
  {
    if s.next <= job.config.count {
      assert Visiting(job, s).outcome.Skipped?;
      assert Advance(job, s).dir == s.dir;
      FullPoolIsSkipped(job, single, Advance(job, s));
    }
  }

  /** An error-free `provision` fills the pool; running it again, with any answers from the
      environment, creates nothing, skips every slot, and leaves the directory as it was. */
  lemma ProvisionIsIdempotent(job: Job, dir: Dir, free: int, again: Job, room: int)
    requires Lawful(job.codec) && again.codec == job.codec && again.config == job.config
    requires forall i :: Allocated(job, i)
    requires forall name :: job.orphanUnlink(name)
    requires Pass(job, false, dir, free).report.errors == []
    ensures var first := Pass(job, false, dir, free);
            var second := Pass(again, false, first.dir, room);
            && AllIntact(job.codec, first.dir, job.config)
            && second.report == ProvisionReport(0, job.config.count, 0, [])
            && second.dir == first.dir
  {
    var first := Pass(job, false, dir, free);
    ProvisionAccounting(job, dir, free);
    PassLeavesNoOrphans(job, false, dir, free);
    assert Prune(first.dir, again.config.count, again.orphanUnlink) == first.dir;
    FullPoolIsSkipped(again, false, Start(again, first.dir, room));
  }
}
