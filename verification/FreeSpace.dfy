/** The free-space floor: a pass never digs deeper than one file below it. */
module FreeSpace {
  import opened Basics
  import opened Pool

  /** Free percentage below 20, by cross-multiplication; a volume of unknown size counts as full. */
  predicate BelowFloor(free: int, total: nat) {
    total == 0 || 5 * free < total
  }

  /** The same as a percentage, exactly. */
  lemma FloorIsTwentyPercent(free: int, total: nat)
    requires total > 0
    ensures BelowFloor(free, total) <==> 100.0 * (free as real) / (total as real) < 20.0
  {
    var percent := 100.0 * (free as real) / (total as real);
    assert percent * (total as real) == 100.0 * (free as real);
    if percent < 20.0 {
      LessTimes(percent, 20.0, total as real);
    } else {
      NotLessTimes(20.0, percent, total as real);
    }
  }

  lemma LessTimes(a: real, b: real, t: real)
    requires a < b && t > 0.0
    ensures a * t < b * t
  {
  }

  lemma NotLessTimes(a: real, b: real, t: real)
    requires a <= b && t > 0.0
    ensures a * t <= b * t
  {
  }

  /** The check reports the volume's true percentage, and no creation takes more than one file. */
  ghost predicate Honest(job: Job, total: nat) {
    && job.checked
    && (forall i, free :: job.fate(i).low(free) <==> BelowFloor(free, total))
    && (forall i :: job.fate(i).cost <= job.config.size)
  }

  /** One visit: clearing only gains space, and a creation starts at or above the floor. */
  lemma VisitKeepsFloor(job: Job, index: u32, found: Option<Node>, free: int, total: nat)
    requires Honest(job, total)
    ensures 5 * VisitSlot(job, index, found, free).free >= Min(5 * free, total - 5 * job.config.size)
  {
    var fate := job.fate(index);
    assert fate.cost <= job.config.size;
    assert fate.low(free) <==> BelowFloor(free, total);
    assert fate.low(free + fate.gain) <==> BelowFloor(free + fate.gain, total);
  }

  lemma {:induction false} FillKeepsFloor(job: Job, single: bool, s: Fill, total: nat)
    requires Honest(job, total) && 1 <= s.next <= job.config.count + 1
    ensures 5 * FillFrom(job, single, s).free >= Min(5 * s.free, total - 5 * job.config.size)
    decreases job.config.count + 1 - s.next
  {
    if s.next <= job.config.count {
      VisitKeepsFloor(job, s.next, At(s.dir, s.next), s.free, total);
      if !Halts(single, Visiting(job, s).outcome) {
        FillKeepsFloor(job, single, Advance(job, s), total);
      }
    }
  }

  /** Whatever mix of pruning, repair, failure and creation happens, a `provision` or
      `replenish_one` ends with at least the space it started with, or 20% of the volume less one
      file, whichever is smaller. */
  lemma PassKeepsFloor(job: Job, single: bool, dir: Dir, free: int, total: nat)
    requires Honest(job, total)
    ensures 5 * Pass(job, single, dir, free).free >= Min(5 * free, total - 5 * job.config.size)
  {
    FillKeepsFloor(job, single, Start(job, dir, free), total);
  }

  /** A pass started at or above the floor never gets a file further down than the floor allows, and
      one started below it creates nothing before space is gained: it cannot lose space at all. */
  lemma {:induction false} LowVolumeLosesNothing(job: Job, single: bool, s: Fill, total: nat)
    requires Honest(job, total) && 1 <= s.next <= job.config.count + 1
    requires forall i :: job.fate(i).gain == 0
    requires BelowFloor(s.free, total)
    ensures var r := FillFrom(job, single, s);
            r.free == s.free && r.report.created == s.report.created
    decreases job.config.count + 1 - s.next
  {
    if s.next <= job.config.count && !Halts(single, Visiting(job, s).outcome) {
      LowVolumeLosesNothing(job, single, Advance(job, s), total);
    }
  }
}
