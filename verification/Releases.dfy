/** What a release report counts, and what a release does to the slots. */
module Releases {
  import opened Basics
  import Header
  import opened SlotNames
  import opened Pool
  import opened Views

  ghost predicate Ascending(inventory: seq<BallastFile>) {
    forall a, b :: 0 <= a < b < |inventory| ==> inventory[a].index < inventory[b].index
  }

  /** The slots a release of `count` files goes for: the remembered ones with the highest indices. */
  ghost function Chosen(inventory: seq<BallastFile>, count: nat): set<nat> {
    set k | |inventory| - Min(count, |inventory|) <= k < |inventory| :: inventory[k].index
  }

  ghost predicate Descends(s: seq<nat>) {
    forall a, b :: 0 <= a < b < |s| ==> s[a] > s[b]
  }

  ghost function Elements(s: seq<nat>): set<nat> {
    set i | i in s
  }

  // ---------- a list of targets, of which some can be removed ----------

  ghost function CountOf(s: seq<nat>, good: nat -> bool): nat {
    if s == [] then 0 else CountOf(s[1..], good) + if good(s[0]) then 1 else 0
  }

  ghost function Others(s: seq<nat>, good: nat -> bool): seq<nat> {
    if s == [] then [] else (if good(s[0]) then [] else [s[0]]) + Others(s[1..], good)
  }

  lemma {:induction false} OthersAreRest(s: seq<nat>, good: nat -> bool)
    ensures |Others(s, good)| + CountOf(s, good) == |s|
    ensures forall i :: i in Others(s, good) <==> i in s && !good(i)
  {
    if s != [] {
      OthersAreRest(s[1..], good);
    }
  }

  lemma {:induction false} OthersDescend(s: seq<nat>, good: nat -> bool)
    requires Descends(s)
    ensures Descends(Others(s, good))
  {
    if s != [] {
      var rest := Others(s[1..], good);
      OthersDescend(s[1..], good);
      OthersAreRest(s[1..], good);
      assert forall k :: 0 <= k < |rest| ==> rest[k] in s[1..];
    }
  }

  ghost function GoodOnes(s: seq<nat>, good: nat -> bool): set<nat> {
    set i | i in s && good(i)
  }

  lemma MembersOfRest(s: seq<nat>, i: nat)
    requires s != []
    ensures i in s <==> i == s[0] || i in s[1..]
  {
    assert s == [s[0]] + s[1..];
  }

  lemma FirstIsNew(s: seq<nat>)
    requires s != [] && Descends(s)
    ensures s[0] !in s[1..] && Descends(s[1..])
  {
  }

  lemma {:induction false} CountIsSize(s: seq<nat>, good: nat -> bool)
    requires Descends(s)
    ensures CountOf(s, good) == |GoodOnes(s, good)|
  {
    if s == [] {
      assert GoodOnes(s, good) == {};
    } else {
      var first: set<nat> := if good(s[0]) then {s[0]} else {};
      FirstIsNew(s);
      CountIsSize(s[1..], good);
      forall i: nat
        ensures i in GoodOnes(s, good) <==> i in GoodOnes(s[1..], good) || i in first
      {
        MembersOfRest(s, i);
      }
      assert GoodOnes(s, good) == GoodOnes(s[1..], good) + first;
    }
  }

  /** `good` says of each target whether it is there and can be removed. */
  ghost predicate Judges(good: nat -> bool, dir: Dir, targets: seq<nat>, unlink: nat -> bool) {
    forall k :: 0 <= k < |targets| ==>
      targets[k] < U32_LIMIT && good(targets[k]) == (At(dir, targets[k]).Some? && unlink(targets[k]))
  }

  /** Removing one target, or failing to, does not change what can be said of the others. */
  lemma OneTarget(dir: Dir, targets: seq<nat>, unlink: nat -> bool, report: ReleaseReport, good: nat -> bool)
    requires targets != [] && Descends(targets) && Judges(good, dir, targets, unlink)
    ensures var (d, next) := ReleaseOne(dir, targets[0], unlink(targets[0]), report);
            && Descends(targets[1..]) && Judges(good, d, targets[1..], unlink)
            && (forall i: u32 :: At(d, i) == if i == targets[0] && good(i) then None else At(dir, i))
            && next.released == report.released + (if good(targets[0]) then 1 else 0)
            && next.errors == report.errors + if good(targets[0]) then [] else [targets[0]]
  {
    var first, rest := targets[0], targets[1..];
    var d := ReleaseOne(dir, first, unlink(first), report).0;
    forall i: u32
      ensures At(d, i) == if i == first && good(i) then None else At(dir, i)
    {
      PutAt(dir, first, None, i);
    }
    forall k | 0 <= k < |rest|
      ensures rest[k] < U32_LIMIT && good(rest[k]) == (At(d, rest[k]).Some? && unlink(rest[k]))
    {
      assert rest[k] == targets[k + 1] != first;
      PutAt(dir, first, None, rest[k]);
    }
  }

  /** The loop of a release, target by target: what is counted and listed. */
  lemma {:induction false} TargetsAreCounted(dir: Dir, targets: seq<nat>, unlink: nat -> bool, report: ReleaseReport,
                                             good: nat -> bool)
    requires Descends(targets) && Judges(good, dir, targets, unlink)
    ensures var r := ReleaseAll(dir, targets, unlink, report).1;
            && r.released == report.released + CountOf(targets, good)
            && r.errors == report.errors + Others(targets, good)
    decreases |targets|
  {
    if targets != [] {
      var (d, next) := ReleaseOne(dir, targets[0], unlink(targets[0]), report);
      OneTarget(dir, targets, unlink, report, good);
      TargetsAreCounted(d, targets[1..], unlink, next, good);
      ConcatIsAssociative(report.errors, if good(targets[0]) then [] else [targets[0]], Others(targets[1..], good));
    }
  }

  lemma ConcatIsAssociative(a: seq<nat>, b: seq<nat>, c: seq<nat>)
    ensures a + b + c == a + (b + c)
  {
  }

  /** And what becomes of one slot. */
  lemma {:induction false} SlotAfterRelease(dir: Dir, targets: seq<nat>, unlink: nat -> bool, report: ReleaseReport,
                                            good: nat -> bool, i: u32)
    requires Descends(targets) && Judges(good, dir, targets, unlink)
    ensures At(ReleaseAll(dir, targets, unlink, report).0, i) == if i in targets && good(i) then None else At(dir, i)
    decreases |targets|
  {
    if targets != [] {
      var (d, next) := ReleaseOne(dir, targets[0], unlink(targets[0]), report);
      OneTarget(dir, targets, unlink, report, good);
      SlotAfterRelease(d, targets[1..], unlink, next, good, i);
      MembersOfRest(targets, i);
    }
  }

  lemma ChosenAreTargets(inventory: seq<BallastFile>, limit: u32, count: nat)
    requires Ascending(inventory) && InRange(inventory, limit)
    ensures var targets := Take(Descending(inventory), count);
            && Descends(targets) && Elements(targets) == Chosen(inventory, count)
            && (forall k :: 0 <= k < |targets| ==> targets[k] < U32_LIMIT)
            && |targets| == Min(count, |inventory|)
  {
    var targets, n := Take(Descending(inventory), count), |inventory|;
    assert forall k :: 0 <= k < |targets| ==> targets[k] == inventory[n - 1 - k].index;
    forall i
      ensures i in Elements(targets) <==> i in Chosen(inventory, count)
    {
      if i in targets {
        var k :| 0 <= k < |targets| && targets[k] == i;
        assert inventory[n - 1 - k].index == i;
      }
      if k :| n - Min(count, n) <= k < n && inventory[k].index == i {
        assert targets[n - 1 - k] == i;
      }
    }
  }

  lemma {:induction false} DistinctCount(s: seq<nat>)
    requires Descends(s)
    ensures |Elements(s)| == |s|
  {
    if s == [] {
      assert Elements(s) == {};
    } else {
      DistinctCount(s[1..]);
      assert s[0] !in Elements(s[1..]) && Elements(s) == Elements(s[1..]) + {s[0]};
    }
  }

  /** Of the chosen slots, those that are there and can be removed. */
  ghost function Removable(dir: Dir, chosen: set<nat>, unlink: nat -> bool): set<nat> {
    set i | i in chosen && At(dir, i).Some? && unlink(i)
  }

  lemma RemovableCount(dir: Dir, targets: seq<nat>, unlink: nat -> bool, good: nat -> bool)
    requires Descends(targets) && forall i :: good(i) == (At(dir, i).Some? && unlink(i))
    ensures CountOf(targets, good) == |Removable(dir, Elements(targets), unlink)|
    ensures forall i :: i in Removable(dir, Elements(targets), unlink) <==> i in targets && good(i)
  {
    CountIsSize(targets, good);
    assert Removable(dir, Elements(targets), unlink) == GoodOnes(targets, good);
  }

  /** A release goes for the `count` highest remembered slots, or all when there are fewer, and counts each
      once: `released` are those that were there and could be removed, `errors` lists all others, highest
      first; exactly the released ones are gone afterwards. */
  lemma ReleaseReports(dir: Dir, inventory: seq<BallastFile>, limit: u32, count: nat, unlink: nat -> bool)
    requires Ascending(inventory) && InRange(inventory, limit)
    ensures var (after, report) := Release(dir, inventory, count, unlink);
            var chosen := Chosen(inventory, count);
            var gone := Removable(dir, chosen, unlink);
            && |chosen| == Min(count, |inventory|)
            && report.released == |gone|
            && report.released + |report.errors| == Min(count, |inventory|)
            && (forall i :: i in report.errors <==> i in chosen && i !in gone)
            && Descends(report.errors)
            && (forall i: u32 :: At(after, i) == if i in gone then None else At(dir, i))
  {
    var targets := Take(Descending(inventory), count);
    var good := (i: nat) => At(dir, i).Some? && unlink(i);
    ChosenAreTargets(inventory, limit, count);
    DistinctCount(targets);
    TargetsAreCounted(dir, targets, unlink, EMPTY_RELEASE, good);
    forall i: u32 {
      SlotAfterRelease(dir, targets, unlink, EMPTY_RELEASE, good, i);
    }
    OthersAreRest(targets, good);
    OthersDescend(targets, good);
    RemovableCount(dir, targets, unlink, good);
    assert EMPTY_RELEASE.errors + Others(targets, good) == Others(targets, good);
  }

  /** Every inventory the program takes is of that kind. */
  lemma ScansAreAscending(codec: Header.Codec, dir: Dir, config: Config)
    ensures Ascending(Scan(codec, dir, config)) && InRange(Scan(codec, dir, config), config.count)
  {
    ScanMirrors(codec, dir, config.size, config.count);
  }
}
