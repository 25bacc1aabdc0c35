/** The ballast pool as a function of one directory (src/ballast/manager.rs): what a pass over the
    slots does to the directory, given what the environment answers to each call. */
module Pool {
  import opened Basics
  import opened Header
  import opened SlotNames

  datatype Config = Config(count: u32, size: u64)

  // ---------- the directory ----------

  /** A directory entry. `head` is what reading the first HEADER_SIZE bytes yields, `blocks` the
      512-byte blocks the platform reports (0 when it cannot tell). `Special` is anything that
      exists but is not a regular file; `Unreadable` an entry whose `stat` fails. */
  datatype Node = Regular(len: nat, head: seq<byte>, blocks: nat) | Special(len: nat) | Unreadable

  type Dir = map<string, Node>

  function Lookup(dir: Dir, name: string): Option<Node> {
    if name in dir then Some(dir[name]) else None
  }

  function At(dir: Dir, index: nat): Option<Node> {
    Lookup(dir, SlotName(index))
  }

  function Put(dir: Dir, name: string, node: Option<Node>): Dir {
    match node
    case None => dir - {name}
    case Some(n) => dir[name := n]
  }

  predicate Exists(found: Option<Node>) {
    found.Some? && !found.value.Unreadable?
  }

  /** The length `stat` reports, or 0 when it fails. */
  function Size(found: Option<Node>): nat {
    match found
    case None => 0
    case Some(Unreadable) => 0
    case Some(n) => n.len
  }

  /** Verification of one slot: size, header, and real allocation. */
  predicate Intact(codec: Codec, found: Option<Node>, index: nat, size: nat) {
    && found.Some? && found.value.Regular?
    && found.value.len == size
    && Accepts(codec, found.value.head, index, size)
    && size <= found.value.blocks * 512 < U64_LIMIT
  }

  // ---------- pruning and scanning ----------

  predicate IsOrphan(name: string, node: Node, count: nat) {
    node.Regular? && ClaimsOrphan(name, count)
  }

  /** The directory after pruning, where `unlink` says which removals succeed. */
  function Prune(dir: Dir, count: nat, unlink: string -> bool): Dir {
    map name | name in dir && !(IsOrphan(name, dir[name], count) && unlink(name)) :: dir[name]
  }

  datatype BallastFile = BallastFile(index: nat, size: nat, integrityOk: bool)

  function Entry(codec: Codec, dir: Dir, size: nat, index: nat): seq<BallastFile> {
    if Exists(At(dir, index))
    then [BallastFile(index, Size(At(dir, index)), Intact(codec, At(dir, index), index, size))]
    else []
  }

  function ScanUpTo(codec: Codec, dir: Dir, size: nat, last: nat): seq<BallastFile> {
    if last == 0 then [] else ScanUpTo(codec, dir, size, last - 1) + Entry(codec, dir, size, last)
  }

  function Scan(codec: Codec, dir: Dir, config: Config): seq<BallastFile> {
    ScanUpTo(codec, dir, config.size, config.count)
  }

  // ---------- filling slots ----------

  /** How one I/O call ends: well, out of storage, or with any other error. */
  datatype Io = Done | Full | Broken

  /** What the environment answers while one slot is visited. `low(free)` is the free-space check
      when the volume has `free` bytes; `left` is what a failed creation leaves at the path after
      its cleanup; `gain` and `cost` are the bytes the volume wins by the removal and loses by the
      creation. */
  datatype Fate = Fate(
    unlink: bool, gain: nat, low: int -> bool,
    prealloc: Io, seal: Io, random: Io,
    blocks: nat, createdAt: string, left: Option<Node>, cost: nat)

  /** One locked pass: the manager's settings and the environment's answers. */
  datatype Job = Job(
    codec: Codec, config: Config, skipFallocate: bool, checked: bool,
    fate: nat -> Fate, orphanUnlink: string -> bool, orphanGain: nat)

  datatype WriteResult = Written(node: Node) | NoSpace | Broke | Refused

  /** File creation: a size guard, preallocation unless forced off, else random data. */
  function CreateFile(job: Job, index: u32): WriteResult {
    var fate := job.fate(index);
    if job.config.size < HEADER_SIZE then Refused
    else
      match HeaderBuffer(job.codec, index, job.config.size, fate.createdAt)
      case None => Broke
      case Some(head) =>
        var outcome :=
          if job.skipFallocate || fate.prealloc.Broken? then fate.random
          else if fate.prealloc.Full? then Full
          else fate.seal;
        match outcome
        case Done => Written(Regular(job.config.size, head, fate.blocks))
        case Full => NoSpace
        case Broken => Broke
  }

  datatype Outcome = Skipped | Created | LowSpace | Exhausted | Failed

  datatype Visit = Visit(node: Option<Node>, free: int, outcome: Outcome)

  /** One slot of a pass: skip it when valid; otherwise clear it, check free space, create it. */
  function VisitSlot(job: Job, index: u32, found: Option<Node>, free: int): Visit {
    if Intact(job.codec, found, index, job.config.size) then Visit(found, free, Skipped)
    else
      var fate := job.fate(index);
      var cleared := Exists(found) && fate.unlink;
      var node := if cleared then None else found;
      var room := if cleared then free + fate.gain else free;
      if job.checked && fate.low(room) then Visit(node, room, LowSpace)
      else
        match CreateFile(job, index)
        case Written(file) => Visit(Some(file), room - fate.cost, Created)
        case NoSpace => Visit(fate.left, room - fate.cost, Exhausted)
        case Broke => Visit(fate.left, room - fate.cost, Failed)
        case Refused => Visit(node, room, Failed)
  }

  datatype SlotError = SlotError(index: nat, reason: Outcome)

  datatype ProvisionReport = ProvisionReport(
    created: nat, skipped: nat, bytes: nat, errors: seq<SlotError>)

  const EMPTY_REPORT: ProvisionReport := ProvisionReport(0, 0, 0, [])

  function Record(report: ProvisionReport, index: nat, outcome: Outcome, size: nat): ProvisionReport {
    match outcome
    case Skipped => report.(skipped := report.skipped + 1)
    case Created => report.(created := report.created + 1, bytes := report.bytes + size)
    case _ => report.(errors := report.errors + [SlotError(index, outcome)])
  }

  /** Whether a pass ends after this outcome; `single` is the one-file-per-call mode. */
  predicate Halts(single: bool, outcome: Outcome) {
    outcome.LowSpace? || outcome.Exhausted? || (single && outcome.Created?)
  }

  /** A pass in progress: slots below `next` have been visited. */
  datatype Fill = Fill(dir: Dir, free: int, report: ProvisionReport, next: nat)

  function Visiting(job: Job, s: Fill): Visit
    requires s.next <= job.config.count
  {
    VisitSlot(job, s.next, At(s.dir, s.next), s.free)
  }

  function Advance(job: Job, s: Fill): Fill
    requires s.next <= job.config.count
  {
    var v := Visiting(job, s);
    Fill(Put(s.dir, SlotName(s.next), v.node), v.free,
         Record(s.report, s.next, v.outcome, job.config.size), s.next + 1)
  }

  function FillFrom(job: Job, single: bool, s: Fill): (r: Fill)
    ensures s.next <= r.next
    ensures s.next <= job.config.count + 1 ==> r.next <= job.config.count + 1
    decreases job.config.count + 1 - s.next
  {
    if s.next > job.config.count then s
    else if Halts(single, Visiting(job, s).outcome) then Advance(job, s)
    else FillFrom(job, single, Advance(job, s))
  }

  function Start(job: Job, dir: Dir, free: int): Fill {
    Fill(Prune(dir, job.config.count, job.orphanUnlink), free + job.orphanGain, EMPTY_REPORT, 1)
  }

  /** A whole `provision` (single = false) or `replenish_one` (single = true). */
  function Pass(job: Job, single: bool, dir: Dir, free: int): Fill {
    FillFrom(job, single, Start(job, dir, free))
  }

  // ---------- releasing ----------

  datatype ReleaseReport = ReleaseReport(released: nat, freed: nat, errors: seq<nat>)

  /** The inventory's slots, highest index first (an inventory is kept in ascending order). */
  function Descending(inventory: seq<BallastFile>): (r: seq<nat>)
    ensures |r| == |inventory|
    ensures forall k :: 0 <= k < |r| ==> r[k] == inventory[|inventory| - 1 - k].index
  {
    seq(|inventory|, k requires 0 <= k < |inventory| => inventory[|inventory| - 1 - k].index)
  }

  function Take<T>(s: seq<T>, n: nat): seq<T> {
    if n < |s| then s[..n] else s
  }

  /** Removing one file: its size on disk is measured first, and counted only on success. */
  function ReleaseOne(dir: Dir, index: nat, unlink: bool, report: ReleaseReport): (Dir, ReleaseReport) {
    if At(dir, index).Some? && unlink
    then (Put(dir, SlotName(index), None),
          report.(released := report.released + 1, freed := report.freed + Size(At(dir, index))))
    else (dir, report.(errors := report.errors + [index]))
  }

  function ReleaseAll(dir: Dir, indices: seq<nat>, unlink: nat -> bool, report: ReleaseReport)
    : (Dir, ReleaseReport)
  {
    if indices == [] then (dir, report)
    else
      var (d, r) := ReleaseOne(dir, indices[0], unlink(indices[0]), report);
      ReleaseAll(d, indices[1..], unlink, r)
  }

  const EMPTY_RELEASE: ReleaseReport := ReleaseReport(0, 0, [])

  function Release(dir: Dir, inventory: seq<BallastFile>, count: nat, unlink: nat -> bool)
    : (Dir, ReleaseReport)
  {
    ReleaseAll(dir, Take(Descending(inventory), count), unlink, EMPTY_RELEASE)
  }

  // ---------- basic facts ----------

  lemma PutAt(dir: Dir, i: u32, node: Option<Node>, j: u32)
    ensures At(Put(dir, SlotName(i), node), j) == if i == j then node else At(dir, j)
  {
    SlotNamesAreInjective();
  }

  /** The state of a pass when it reaches slot `j`. */
  ghost function StateAt(job: Job, single: bool, s: Fill, j: nat): (t: Fill)
    requires s.next <= j < FillFrom(job, single, s).next
    ensures t.next == j
    decreases j - s.next
  {
    if j == s.next then s else StateAt(job, single, Advance(job, s), j)
  }

  ghost function VisitAt(job: Job, single: bool, s: Fill, j: nat): Visit
    requires s.next <= j < FillFrom(job, single, s).next
  {
    Visiting(job, StateAt(job, single, s, j))
  }

  /** A pass changes exactly the slots it visits, each by one visit of what was there before. */
  lemma {:induction false} PassIsLocal(job: Job, single: bool, s: Fill)
    requires 1 <= s.next <= job.config.count + 1
    ensures var r := FillFrom(job, single, s);
            && (forall j: u32 :: s.next <= j < r.next ==>
                 && At(StateAt(job, single, s, j).dir, j) == At(s.dir, j)
                 && At(r.dir, j) == VisitAt(job, single, s, j).node)
            && (forall j: u32 :: !(s.next <= j < r.next) ==> At(r.dir, j) == At(s.dir, j))
            && (forall name :: (forall j: u32 :: s.next <= j < r.next ==> name != SlotName(j)) ==>
                 Lookup(r.dir, name) == Lookup(s.dir, name))
    decreases job.config.count + 1 - s.next
  {
    var r := FillFrom(job, single, s);
    if s.next <= job.config.count {
      var t := Advance(job, s);
      forall j: u32 {
        PutAt(s.dir, s.next, Visiting(job, s).node, j);
      }
      if !Halts(single, Visiting(job, s).outcome) {
        PassIsLocal(job, single, t);
        forall j: u32 | s.next < j < r.next
          ensures StateAt(job, single, s, j) == StateAt(job, single, t, j)
        {
        }
      }
    }
  }

  /** The same for one slot. */
  lemma SlotAfterPass(job: Job, single: bool, s: Fill, i: u32)
    requires 1 <= s.next <= job.config.count + 1
    ensures var r := FillFrom(job, single, s);
            && (s.next <= i < r.next ==>
                 && i <= job.config.count
                 && VisitAt(job, single, s, i) == VisitSlot(job, i, At(s.dir, i), StateAt(job, single, s, i).free)
                 && At(r.dir, i) == VisitAt(job, single, s, i).node)
            && (!(s.next <= i < r.next) ==> At(r.dir, i) == At(s.dir, i))
  {
    PassIsLocal(job, single, s);
  }
}
