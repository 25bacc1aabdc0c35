/** Writing a file's random payload in bounded chunks with periodic syncs (src/ballast/manager.rs). */
module RandomData {
  const CHUNK: nat := 4 * 1024 * 1024
  const SYNC_EVERY: nat := 64 * 1024 * 1024

  datatype Op = Write(bytes: nat) | Sync

  function Written(ops: seq<Op>): nat {
    if ops == [] then 0
    else Written(ops[..|ops| - 1]) + match ops[|ops| - 1] case Write(n) => n case Sync => 0
  }

  function Syncs(ops: seq<Op>): nat {
    if ops == [] then 0 else Syncs(ops[..|ops| - 1]) + if ops[|ops| - 1].Sync? then 1 else 0
  }

  /** Bytes written since the last sync. */
  function Unsynced(ops: seq<Op>): nat {
    if ops == [] then 0
    else match ops[|ops| - 1] case Write(n) => Unsynced(ops[..|ops| - 1]) + n case Sync => 0
  }

  /** At no moment are more than 64 MiB unsynced, and every write is one non-empty chunk at most. */
  ghost predicate Bounded(ops: seq<Op>) {
    && (forall k :: 0 <= k <= |ops| ==> Unsynced(ops[..k]) <= SYNC_EVERY)
    && (forall k :: 0 <= k < |ops| && ops[k].Write? ==> 0 < ops[k].bytes <= CHUNK)
  }

  lemma Append(ops: seq<Op>, op: Op)
    requires Bounded(ops)
    ensures var longer := ops + [op];
            && Written(longer) == Written(ops) + (match op case Write(n) => n case Sync => 0)
            && Syncs(longer) == Syncs(ops) + (if op.Sync? then 1 else 0)
            && Unsynced(longer) == (match op case Write(n) => Unsynced(ops) + n case Sync => 0)
            && (Unsynced(longer) <= SYNC_EVERY && (op.Write? ==> 0 < op.bytes <= CHUNK) ==> Bounded(longer))
  {
    var longer := ops + [op];
    assert longer[..|longer| - 1] == ops;
    assert longer[..|longer|] == longer;
    assert forall k :: 0 <= k <= |ops| ==> longer[..k] == ops[..k];
  }

  /** The counters agree with the calls made so far. */
  ghost predicate Tracks(ops: seq<Op>, written: nat, sinceSync: nat) {
    && Bounded(ops) && written == Written(ops) && sinceSync == Unsynced(ops)
    && written == Syncs(ops) * SYNC_EVERY + sinceSync
  }

  lemma WriteTracks(ops: seq<Op>, written: nat, sinceSync: nat, n: nat)
    requires Tracks(ops, written, sinceSync) && 0 < n <= CHUNK && sinceSync + n <= SYNC_EVERY
    ensures Tracks(ops + [Write(n)], written + n, sinceSync + n)
  {
    Append(ops, Write(n));
  }

  lemma SyncTracks(ops: seq<Op>, written: nat, sinceSync: nat)
    requires Tracks(ops, written, sinceSync) && sinceSync == SYNC_EVERY
    ensures Tracks(ops + [Sync], written, 0)
  {
    Append(ops, Sync);
  }

  /** Syncs keep up with the bytes written; only a sync that is due may be missing. */
  lemma SyncsKeepUp(ops: seq<Op>, written: nat, sinceSync: nat)
    requires Tracks(ops, written, sinceSync) && sinceSync <= SYNC_EVERY
    ensures Syncs(ops) + (if sinceSync == SYNC_EVERY then 1 else 0) == written / SYNC_EVERY
  {
  }

  /** Chunks of 4 MiB; only the last may be shorter. */
  ghost predicate AllFull(ops: seq<Op>) {
    forall k :: 0 <= k < |ops| && ops[k].Write? ==> ops[k].bytes == 0x40_0000
  }

  ghost predicate AllButLastFull(ops: seq<Op>) {
    forall j, k :: 0 <= j < k < |ops| && ops[j].Write? && ops[k].Write? ==> ops[j].bytes == 0x40_0000
  }

  lemma ChunkKeepsFull(before: seq<Op>, n: nat, ops: seq<Op>)
    requires AllFull(before)
    requires ops == before || ops == before + [Write(n)] || ops == before + [Write(n), Sync]
    ensures AllButLastFull(ops) && (n == 0x40_0000 ==> AllFull(ops))
  {
  }

  /** What one successful round of the loop leaves: one more chunk, synced when 64 MiB are due. */
  method WriteChunk(before: seq<Op>, ghost written: nat, sinceSync: nat, n: nat, fails: nat -> bool)
    returns (ok: bool, ops: seq<Op>, since: nat)
    requires Tracks(before, written, sinceSync) && 0 < n <= CHUNK && sinceSync + n <= SYNC_EVERY
    ensures before <= ops && forall k :: |before| <= k < |ops| ==> !fails(k)
    ensures ops == before || ops == before + [Write(n)] || ops == before + [Write(n), Sync]
    ensures ok ==> Tracks(ops, written + n, since) && since == if sinceSync + n < SYNC_EVERY then sinceSync + n else 0
    ensures !ok ==> fails(|ops|) && (Tracks(ops, written, sinceSync) || Tracks(ops, written + n, SYNC_EVERY))
  {
    ops, since := before, sinceSync;
    if fails(|ops|) {
      return false, ops, since;
    }
    WriteTracks(ops, written, since, n);
    ops, since := ops + [Write(n)], since + n;
    if since >= SYNC_EVERY {
      if fails(|ops|) {
        return false, ops, since;
      }
      SyncTracks(ops, written + n, since);
      ops, since := ops + [Sync], 0;
    }
    ok := true;
  }

  /** Exactly the requested bytes, in chunks, one sync per full 64 MiB, never more than that unsynced;
      the first call that fails ends it. `fails(k)` says whether the k-th call does. */
  method WriteRandomData(size: nat, fails: nat -> bool) returns (ok: bool, ops: seq<Op>)
    ensures Bounded(ops) && Written(ops) <= size
    ensures ok ==> Written(ops) == size && Syncs(ops) == size / 0x400_0000
    ensures AllButLastFull(ops)
    ensures !ok ==> fails(|ops|) && Written(ops) / SYNC_EVERY - 1 <= Syncs(ops) <= Written(ops) / SYNC_EVERY
    ensures forall k :: 0 <= k < |ops| ==> !fails(k)
  {
    ok, ops := true, [];
    var written: nat, sinceSync: nat := 0, 0;
    ghost var chunks := 0;
    while written < size
      invariant Tracks(ops, written, sinceSync) && written <= size && sinceSync < SYNC_EVERY
      invariant written < size ==> sinceSync == chunks * 0x40_0000
      invariant forall k :: 0 <= k < |ops| ==> !fails(k)
      invariant ok && if written < size then AllFull(ops) else AllButLastFull(ops)
    {
      var n := if size - written > CHUNK then CHUNK else size - written;
      ghost var before := ops;
      ok, ops, sinceSync := WriteChunk(ops, written, sinceSync, n, fails);
      ChunkKeepsFull(before, n, ops);
      if !ok {
        SyncsKeepUp(ops, Written(ops), Unsynced(ops));
        return;
      }
      written := written + n;
      chunks := if sinceSync == 0 then 0 else chunks + 1;
    }
    SyncsKeepUp(ops, written, sinceSync);
  }
}
