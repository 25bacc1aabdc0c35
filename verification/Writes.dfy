/** What the environment's answers make of one slot and of a whole pass, read off those answers alone:
    when a creation succeeds, fails or runs out of storage, what a visit leaves and what it costs. */
module Writes {
  import opened Basics
  import opened Header
  import opened SlotNames
  import opened Pool
  import opened Accounting

  /** The size leaves room for a header and the header's text fits. */
  predicate Fits(job: Job, index: u32) {
    && 4096 <= job.config.size
    && |job.codec.write(NewHeader(index, job.config.size, job.fate(index).createdAt))| <= 4096
  }

  /** The write that decides: random data when preallocation is switched off or does not work, else
      preallocation and then the header. */
  predicate Ends(job: Job, index: u32, io: Io) {
    var fate, direct := job.fate(index), job.skipFallocate || job.fate(index).prealloc == Broken;
    || (direct && fate.random == io)
    || (!direct && fate.prealloc == Done && fate.seal == io)
  }

  predicate Completes(job: Job, index: u32) {
    Fits(job, index) && Ends(job, index, Done)
  }

  predicate OutOfStorage(job: Job, index: u32) {
    Fits(job, index) && (Ends(job, index, Full) || (!job.skipFallocate && job.fate(index).prealloc == Full))
  }

  /** How the creation of a file ends. */
  lemma CreationIff(job: Job, index: u32)
    ensures CreateFile(job, index).Refused? <==> job.config.size < 4096
    ensures CreateFile(job, index).Written? <==> Completes(job, index)
    ensures CreateFile(job, index).NoSpace? <==> OutOfStorage(job, index)
    ensures CreateFile(job, index).Broke? <==>
            4096 <= job.config.size && !Completes(job, index) && !OutOfStorage(job, index)
  {
  }

  /** The program's own attempt to clear the slot: made when something can be found there. */
  predicate Cleared(job: Job, index: u32, found: Option<Node>) {
    found.Some? && found.value != Unreadable && job.fate(index).unlink
  }

  /** The free bytes when the free-space check is made: after the attempt to clear the slot. */
  function RoomAfterClearing(job: Job, index: u32, found: Option<Node>, free: int): int {
    free + if Cleared(job, index, found) then job.fate(index).gain else 0
  }

  predicate StopsForSpace(job: Job, index: u32, found: Option<Node>, free: int) {
    job.checked && job.fate(index).low(RoomAfterClearing(job, index, found, free))
  }

  /** How a visit of a slot that does not verify ends. */
  lemma VisitEndsIff(job: Job, index: u32, found: Option<Node>, free: int)
    requires !Intact(job.codec, found, index, job.config.size)
    ensures var outcome, low := VisitSlot(job, index, found, free).outcome, StopsForSpace(job, index, found, free);
            && outcome != Skipped
            && (outcome == LowSpace <==> low)
            && (outcome == Created <==> !low && Completes(job, index))
            && (outcome == Exhausted <==> !low && OutOfStorage(job, index))
            && (outcome == Outcome.Failed <==> !low && !Completes(job, index) && !OutOfStorage(job, index))
  {
    CreationIff(job, index);
  }

  /** What it leaves in the slot, and how many bytes it leaves free. */
  lemma VisitLeaves(job: Job, index: u32, found: Option<Node>, free: int)
    requires !Intact(job.codec, found, index, job.config.size)
    ensures var v, fate := VisitSlot(job, index, found, free), job.fate(index);
            if StopsForSpace(job, index, found, free) || job.config.size < 4096 then
              && v.node == (if Cleared(job, index, found) then None else found)
              && v.free == RoomAfterClearing(job, index, found, free)
            else
              && v.free == RoomAfterClearing(job, index, found, free) - fate.cost
              && (if Completes(job, index)
                  then v.node.Some? && v.node.value.Regular? && v.node.value.len == job.config.size
                       && v.node.value.blocks == fate.blocks
                  else v.node == fate.left)
  {
    CreationIff(job, index);
  }

  /** A slot that verifies is left alone. */
  lemma IntactIsSkipped(job: Job, index: u32, found: Option<Node>, free: int)
    requires Intact(job.codec, found, index, job.config.size)
    ensures VisitSlot(job, index, found, free) == Visit(found, free, Skipped)
  {
  }

  /** The size of an entry is the length its status reports, of whatever kind it is, and 0 when there is no
      status to be had. */
  lemma SizeIs(found: Option<Node>)
    ensures Size(found) == match found
                           case Some(Regular(len, _, _)) => len
                           case Some(Special(len)) => len
                           case Some(Unreadable) => 0
                           case None => 0
  {
  }

  // ---------- whole passes ----------

  /** The pass arrives at slot i with this many free bytes, and the slot does not verify. */
  ghost predicate Arrives(job: Job, single: bool, s: Fill, i: u32, free: int) {
    && s.next <= i < FillFrom(job, single, s).next
    && StateAt(job, single, s, i).free == free
    && !Intact(job.codec, At(s.dir, i), i, job.config.size)
  }

  /** Running out of storage, or finding too little space, ends the pass at once: the report's last error
      says so, the slot holds what was left of it, and no later slot was touched. */
  lemma PassStopsAt(job: Job, single: bool, s: Fill, i: u32, free: int)
    requires 1 <= s.next <= job.config.count + 1 && s.report == EMPTY_REPORT
    requires Arrives(job, single, s, i, free)
    requires StopsForSpace(job, i, At(s.dir, i), free) || OutOfStorage(job, i)
    ensures var r := FillFrom(job, single, s);
            && r.next == i + 1
            && (forall j: u32 :: i < j ==> At(r.dir, j) == At(s.dir, j))
            && SlotError(i, if StopsForSpace(job, i, At(s.dir, i), free) then LowSpace else Exhausted)
               in r.report.errors
            && (!StopsForSpace(job, i, At(s.dir, i), free) ==> At(r.dir, i) == job.fate(i).left)
  {
    var r := FillFrom(job, single, s);
    SlotAfterPass(job, single, s, i);
    VisitEndsIff(job, i, At(s.dir, i), free);
    VisitLeaves(job, i, At(s.dir, i), free);
    PassStep(job, single, s, i);
    ErrorAt(job, single, s, i);
    forall j: u32 | i < j
      ensures At(r.dir, j) == At(s.dir, j)
    {
      SlotAfterPass(job, single, s, j);
    }
  }

  lemma ErrorAt(job: Job, single: bool, s: Fill, i: u32)
    requires 1 <= s.next <= job.config.count + 1 && s.report == EMPTY_REPORT
    requires s.next <= i < FillFrom(job, single, s).next
    ensures var v := VisitAt(job, single, s, i);
            IsError(v.outcome) ==> SlotError(i, v.outcome) in FillFrom(job, single, s).report.errors
  {
    ErrorsMatchVisits(job, single, s);
  }

  /** Anything else does not end it: the pass goes on to the next slot, except that a replenishing call
      is over after its first file. */
  lemma PassGoesOn(job: Job, single: bool, s: Fill, i: u32, free: int)
    requires 1 <= s.next <= job.config.count + 1
    requires Arrives(job, single, s, i, free) && i < job.config.count
    requires !StopsForSpace(job, i, At(s.dir, i), free) && !OutOfStorage(job, i)
    ensures i + 1 < FillFrom(job, single, s).next <==> !(single && Completes(job, i))
  {
    SlotAfterPass(job, single, s, i);
    VisitEndsIff(job, i, At(s.dir, i), free);
    PassStep(job, single, s, i);
  }

  /** For instance: two empty slots, no free-space check, the first creation out of storage. Nothing is
      created, and the second slot stays empty although its creation would have worked. */
  lemma FullStorageStops(job: Job, single: bool, free: int)
    requires !job.checked && job.config.count == 2 && OutOfStorage(job, 1) && job.fate(1).left == None
    ensures var r := FillFrom(job, single, Fill(map[], free, EMPTY_REPORT, 1));
            r.report == ProvisionReport(0, 0, 0, [SlotError(1, Exhausted)]) && r.next == 2 && r.dir == map[]
  {
    var s := Fill(map[], free, EMPTY_REPORT, 1);
    VisitEndsIff(job, 1, None, free);
    VisitLeaves(job, 1, None, free);
    assert Visiting(job, s).outcome == Exhausted;
    assert Advance(job, s).dir == map[];
  }

  // ---------- counting ----------

  ghost function VisitsEnding(job: Job, single: bool, s: Fill, outcome: Outcome): set<nat> {
    set j | s.next <= j < FillFrom(job, single, s).next && VisitAt(job, single, s, j).outcome == outcome
  }

  /** The report counts what happened: `created` the creations, `skipped` the slots left alone. */
  lemma {:induction false} CountsMatchVisits(job: Job, single: bool, s: Fill)
    requires 1 <= s.next <= job.config.count + 1
    ensures var r := FillFrom(job, single, s);
            && r.report.created == s.report.created + |VisitsEnding(job, single, s, Created)|
            && r.report.skipped == s.report.skipped + |VisitsEnding(job, single, s, Skipped)|
    decreases job.config.count + 1 - s.next
  {
    var r := FillFrom(job, single, s);
    if s.next <= job.config.count {
      var v := Visiting(job, s);
      FirstVisit(job, single, s, Created);
      FirstVisit(job, single, s, Skipped);
      if !Halts(single, v.outcome) {
        CountsMatchVisits(job, single, Advance(job, s));
      }
    } else {
      assert VisitsEnding(job, single, s, Created) == {} == VisitsEnding(job, single, s, Skipped);
    }
  }

  lemma LaterVisit(job: Job, single: bool, s: Fill, j: nat)
    requires 1 <= s.next <= job.config.count && !Halts(single, Visiting(job, s).outcome)
    requires s.next < j < FillFrom(job, single, s).next
    ensures VisitAt(job, single, s, j) == VisitAt(job, single, Advance(job, s), j)
  {
  }

  lemma EndingAt(job: Job, single: bool, s: Fill, outcome: Outcome, j: nat)
    requires 1 <= s.next <= job.config.count
    ensures j in VisitsEnding(job, single, s, outcome) <==>
            || (j == s.next && Visiting(job, s).outcome == outcome)
            || (!Halts(single, Visiting(job, s).outcome) && j in VisitsEnding(job, single, Advance(job, s), outcome))
  {
    if Halts(single, Visiting(job, s).outcome) {
      assert FillFrom(job, single, s).next == s.next + 1;
    } else if s.next < j < FillFrom(job, single, s).next {
      LaterVisit(job, single, s, j);
    } else if j == s.next {
      assert StateAt(job, single, s, j) == s;
    }
  }

  lemma FirstVisit(job: Job, single: bool, s: Fill, outcome: Outcome)
    requires 1 <= s.next <= job.config.count
    ensures var v := Visiting(job, s);
            var rest := if Halts(single, v.outcome) then {} else VisitsEnding(job, single, Advance(job, s), outcome);
            |VisitsEnding(job, single, s, outcome)| == |rest| + if v.outcome == outcome then 1 else 0
  {
    var v, all := Visiting(job, s), VisitsEnding(job, single, s, outcome);
    var first: set<nat> := if v.outcome == outcome then {s.next} else {};
    var rest: set<nat> := if Halts(single, v.outcome) then {} else VisitsEnding(job, single, Advance(job, s), outcome);
    forall j: nat
      ensures j in all <==> j in first || j in rest
    {
      EndingAt(job, single, s, outcome, j);
    }
    assert s.next !in rest;
    DisjointSizes(all, first, rest);
  }

  lemma DisjointSizes(all: set<nat>, a: set<nat>, b: set<nat>)
    requires a !! b && forall j: nat :: j in all <==> j in a || j in b
    ensures |all| == |a| + |b|
  {
    assert all == a + b;
  }

  // ---------- free space ----------

  /** Bytes the volume wins by a visit, and bytes it loses. */
  function Gained(job: Job, index: u32, found: Option<Node>): nat {
    if !Intact(job.codec, found, index, job.config.size) && Cleared(job, index, found) then job.fate(index).gain else 0
  }

  function Spent(job: Job, index: u32, found: Option<Node>, free: int): nat {
    if Intact(job.codec, found, index, job.config.size) || StopsForSpace(job, index, found, free)
       || job.config.size < 4096
    then 0 else job.fate(index).cost
  }

  ghost function TotalGained(job: Job, single: bool, s: Fill): nat
    decreases job.config.count + 1 - s.next
  {
    if s.next > job.config.count then 0
    else
      Gained(job, s.next, At(s.dir, s.next))
      + if Halts(single, Visiting(job, s).outcome) then 0 else TotalGained(job, single, Advance(job, s))
  }

  ghost function TotalSpent(job: Job, single: bool, s: Fill): nat
    decreases job.config.count + 1 - s.next
  {
    if s.next > job.config.count then 0
    else
      Spent(job, s.next, At(s.dir, s.next), s.free)
      + if Halts(single, Visiting(job, s).outcome) then 0 else TotalSpent(job, single, Advance(job, s))
  }

  /** Free space after a pass: what there was, what pruning and clearing won, less what creations took. */
  lemma SpaceBalances(job: Job, single: bool, dir: Dir, free: int)
    ensures Pass(job, single, dir, free).free + TotalSpent(job, single, Start(job, dir, free))
            == free + job.orphanGain + TotalGained(job, single, Start(job, dir, free))
  {
    FillBalancesSpace(job, single, Start(job, dir, free));
  }

  lemma {:induction false} FillBalancesSpace(job: Job, single: bool, s: Fill)
    requires 1 <= s.next <= job.config.count + 1
    ensures FillFrom(job, single, s).free + TotalSpent(job, single, s) == s.free + TotalGained(job, single, s)
    decreases job.config.count + 1 - s.next
  {
    if s.next <= job.config.count {
      VisitBalancesSpace(job, s.next, At(s.dir, s.next), s.free);
      if !Halts(single, Visiting(job, s).outcome) {
        FillBalancesSpace(job, single, Advance(job, s));
      }
    }
  }

  lemma VisitBalancesSpace(job: Job, index: u32, found: Option<Node>, free: int)
    ensures VisitSlot(job, index, found, free).free + Spent(job, index, found, free) == free + Gained(job, index, found)
  {
    if !Intact(job.codec, found, index, job.config.size) {
      VisitLeaves(job, index, found, free);
    }
  }

  // ---------- what verification asks ----------

  /** The header text a block starts with: everything before the first NUL. */
  ghost predicate StartsWith(codec: Codec, head: seq<byte>, header: BallastHeader) {
    exists k :: 0 <= k <= |head| && 0 !in head[..k] && (k < |head| ==> head[k] == 0)
                && codec.read(head[..k]) == Some(header)
  }

  /** A slot verifies exactly when it is a regular file of the configured size whose first 4096 bytes hold
      a header with the right magic, index and size, and for which enough blocks are allocated. */
  lemma IntactIff(codec: Codec, found: Option<Node>, index: nat, size: nat)
    ensures Intact(codec, found, index, size) <==>
            && found.Some? && found.value.Regular?
            && found.value.len == size
            && |found.value.head| == 4096
            && (exists header :: StartsWith(codec, found.value.head, header)
                  && header.magic == "SBH_BALLAST_v1" && header.fileIndex == index && header.fileSize == size)
            && size <= 512 * found.value.blocks < 0x1_0000_0000_0000_0000
  {
    if found.Some? && found.value.Regular? && |found.value.head| == 4096 {
      var head := found.value.head;
      var k := FirstNul(head, 0);
      assert head[0..k] == head[..k];
      forall header
        ensures StartsWith(codec, head, header) <==> codec.read(head[..k]) == Some(header)
      {
        TextIsUnique(codec, head, header, k);
      }
    }
  }

  lemma NoNulBefore(head: seq<byte>, k: nat)
    requires k <= |head| && 0 !in head[..k]
    ensures forall i :: 0 <= i < k ==> head[i] != 0
  {
    forall i | 0 <= i < k
      ensures head[i] != 0
    {
      assert head[i] in head[..k];
    }
  }

  lemma TextIsUnique(codec: Codec, head: seq<byte>, header: BallastHeader, k: nat)
    requires k <= |head| && 0 !in head[..k] && (k < |head| ==> head[k] == 0)
    ensures StartsWith(codec, head, header) <==> codec.read(head[..k]) == Some(header)
  {
    if StartsWith(codec, head, header) {
      var n :| 0 <= n <= |head| && 0 !in head[..n] && (n < |head| ==> head[n] == 0)
               && codec.read(head[..n]) == Some(header);
      NoNulBefore(head, k);
      NoNulBefore(head, n);
      assert n == k;
    }
  }
}
