/** Depth-first ordering of process rows under their parents (src/cli_app.rs), for any parent
    relation: missing parents, cycles, self-parents and duplicate pids included. */
module Blame {
  import opened Basics

  datatype Row = Row(pid: int, parent: Option<int>)

  /** An output line: a row index and its depth. */
  datatype Line = Line(index: nat, depth: nat)

  datatype Walk = Walk(visited: set<nat>, order: seq<Line>)

  ghost function Below(n: nat): (s: set<nat>)
    ensures forall i :: i in s <==> 0 <= i < n
    ensures |s| == n
  {
    if n == 0 then {} else Below(n - 1) + {n - 1}
  }

  ghost function Indices(rows: seq<Row>): set<nat> {
    Below(|rows|)
  }

  predicate HasPid(rows: seq<Row>, pid: int) {
    exists i :: 0 <= i < |rows| && rows[i].pid == pid
  }

  /** The rows with every parent pid dropped that no row has. */
  function Resolved(rows: seq<Row>): (r: seq<Row>)
    ensures |r| == |rows|
    ensures forall i :: 0 <= i < |rows| ==> r[i].pid == rows[i].pid
    ensures forall i :: 0 <= i < |rows| ==>
      r[i].parent == if rows[i].parent.Some? && HasPid(rows, rows[i].parent.value) then rows[i].parent else None
  {
    seq(|rows|, i requires 0 <= i < |rows| =>
      if rows[i].parent.Some? && !HasPid(rows, rows[i].parent.value) then rows[i].(parent := None) else rows[i])
  }

  /** The rows below `n` filed under a parent key, in index order. */
  function ChildrenBelow(rows: seq<Row>, key: Option<int>, n: nat): (s: seq<nat>)
    requires n <= |rows|
    ensures forall k :: 0 <= k < |s| ==> s[k] < n
  {
    if n == 0 then []
    else
      var before := ChildrenBelow(rows, key, n - 1);
      if rows[n - 1].parent == key then before + [n - 1] else before
  }

  function Children(rows: seq<Row>, key: Option<int>): seq<nat> {
    ChildrenBelow(rows, key, |rows|)
  }

  /** The children list holds exactly the rows filed under the key, in ascending order. */
  lemma {:induction false} ChildrenAreExact(rows: seq<Row>, key: Option<int>, n: nat)
    requires n <= |rows|
    ensures forall k :: 0 <= k < |ChildrenBelow(rows, key, n)| ==> rows[ChildrenBelow(rows, key, n)[k]].parent == key
    ensures forall a, b :: 0 <= a < b < |ChildrenBelow(rows, key, n)| ==>
      ChildrenBelow(rows, key, n)[a] < ChildrenBelow(rows, key, n)[b]
    ensures forall i :: 0 <= i < n && rows[i].parent == key ==> i in ChildrenBelow(rows, key, n)
  {
    if n > 0 {
      ChildrenAreExact(rows, key, n - 1);
      var before := ChildrenBelow(rows, key, n - 1);
      if rows[n - 1].parent == key {
        var s := before + [n - 1];
        assert ChildrenBelow(rows, key, n) == s;
        assert forall k :: 0 <= k < |before| ==> s[k] == before[k];
        assert s[|before|] == n - 1;
      }
    }
  }

  /** The walk over a list of siblings and, below each, its children. */
  function WalkList(rows: seq<Row>, siblings: seq<nat>, depth: nat, w: Walk): (r: Walk)
    requires forall k :: 0 <= k < |siblings| ==> siblings[k] < |rows|
    requires w.visited <= Indices(rows)
    ensures w.visited <= r.visited <= Indices(rows)
    ensures w.order <= r.order
    decreases Indices(rows) - w.visited, |siblings|
  {
    if siblings == [] then w
    else if siblings[0] in w.visited then WalkList(rows, siblings[1..], depth, w)
    else
      var below := WalkList(rows, Children(rows, Some(rows[siblings[0]].pid)), depth + 1, Enter(w, siblings[0], depth));
      WalkList(rows, siblings[1..], depth, below)
  }

  function Enter(w: Walk, i: nat, depth: nat): Walk {
    Walk(w.visited + {i}, w.order + [Line(i, depth)])
  }

  function TreeWalk(rows: seq<Row>): Walk {
    WalkList(rows, Children(rows, None), 0, Walk({}, []))
  }

  /** Rows the walk did not reach, from `from` on, at depth 0 in index order. */
  function Rest(rows: seq<Row>, visited: set<nat>, from: nat): (s: seq<Line>)
    ensures forall k :: 0 <= k < |s| ==> from <= s[k].index < |rows| && s[k].index !in visited && s[k].depth == 0
    ensures forall a, b :: 0 <= a < b < |s| ==> s[a].index < s[b].index
    ensures forall i :: from <= i < |rows| && i !in visited ==> Line(i, 0) in s
    decreases |rows| - from
  {
    if from >= |rows| then []
    else if from in visited then Rest(rows, visited, from + 1)
    else [Line(from, 0)] + Rest(rows, visited, from + 1)
  }

  /** The whole listing: the forest, then everything the walk could not reach. */
  function TreeOrder(rows: seq<Row>): seq<Line> {
    var w := TreeWalk(rows);
    w.order + Rest(rows, w.visited, 0)
  }

  // ---------- the program ----------

  class TreeWalker {
    const rows: seq<Row>
    const children: map<Option<int>, seq<nat>>
    var visited: set<nat>
    var order: seq<Line>

    constructor (rows: seq<Row>, children: map<Option<int>, seq<nat>>)
      ensures this.rows == rows && this.children == children && visited == {} && order == []
    {
      this.rows := rows;
      this.children := children;
      visited := {};
      order := [];
    }

    ghost predicate Valid()
      reads this
    {
      && visited <= Indices(rows)
      && forall key :: Children(rows, key) == if key in children then children[key] else []
    }

    method AppendChildren(parent: Option<int>, depth: nat)
      requires Valid()
      modifies this
      ensures Valid() && old(visited) <= visited
      ensures Walk(visited, order) == WalkList(rows, Children(rows, parent), depth, old(Walk(visited, order)))
      decreases Indices(rows) - visited, 1
    {
      if parent !in children {
        return;
      }
      var siblings := children[parent];
      ghost var target := WalkList(rows, siblings, depth, Walk(visited, order));
      var k := 0;
      while k < |siblings|
        invariant 0 <= k <= |siblings|
        invariant Valid() && old(visited) <= visited
        invariant target == WalkList(rows, siblings[k..], depth, Walk(visited, order))
      {
        WalkStep(rows, siblings[k..], depth, Walk(visited, order));
        assert siblings[k..][1..] == siblings[k + 1..];
        if siblings[k] !in visited {
          AppendRow(siblings[k], depth);
        }
        k := k + 1;
      }
    }

    /** Lists one row and, below it, its children. */
    method AppendRow(index: nat, depth: nat)
      requires Valid() && index < |rows| && index !in visited
      modifies this
      ensures Valid() && old(visited) <= visited
      ensures Walk(visited, order) ==
        WalkList(rows, Children(rows, Some(rows[index].pid)), depth + 1, Enter(old(Walk(visited, order)), index, depth))
      decreases Indices(rows) - visited, 0
    {
      visited := visited + {index};
      order := order + [Line(index, depth)];
      AppendChildren(Some(rows[index].pid), depth + 1);
    }
  }

  /** The recursion of the walk, one sibling at a time. */
  lemma WalkStep(rows: seq<Row>, siblings: seq<nat>, depth: nat, w: Walk)
    requires forall k :: 0 <= k < |siblings| ==> siblings[k] < |rows|
    requires w.visited <= Indices(rows) && siblings != []
    ensures WalkList(rows, siblings, depth, w) ==
            WalkList(rows, siblings[1..], depth,
                     if siblings[0] in w.visited then w
                     else WalkList(rows, Children(rows, Some(rows[siblings[0]].pid)), depth + 1,
                                   Enter(w, siblings[0], depth)))
  {
  }

  method GroupByParent(rows: seq<Row>) returns (children: map<Option<int>, seq<nat>>)
    ensures forall key :: Children(rows, key) == if key in children then children[key] else []
  {
    children := map[];
    for i := 0 to |rows|
      invariant forall key :: ChildrenBelow(rows, key, i) == if key in children then children[key] else []
    {
      var key := rows[i].parent;
      children := children[key := (if key in children then children[key] else []) + [i]];
    }
  }

  /** Drops the parent pids that no row has. */
  method ResolveParents(rows: seq<Row>) returns (resolved: seq<Row>)
    ensures resolved == Resolved(rows)
  {
    var pids: set<int> := {};
    for i := 0 to |rows|
      invariant forall pid :: pid in pids <==> exists j :: 0 <= j < i && rows[j].pid == pid
    {
      pids := pids + {rows[i].pid};
    }
    assert forall pid :: pid in pids <==> HasPid(rows, pid);
    resolved := [];
    for i := 0 to |rows|
      invariant resolved == Resolved(rows)[..i]
    {
      var row := rows[i];
      resolved := resolved + [if row.parent.Some? && row.parent.value !in pids then row.(parent := None) else row];
    }
  }

  method BlameTreeOrder(rows: seq<Row>) returns (order: seq<Line>)
    ensures order == TreeOrder(Resolved(rows))
  {
    var resolved := ResolveParents(rows);
    var children := GroupByParent(resolved);
    var walker := new TreeWalker(resolved, children);
    walker.AppendChildren(None, 0);
    order := AppendRest(resolved, walker.visited, walker.order);
  }

  method AppendRest(rows: seq<Row>, visited: set<nat>, walked: seq<Line>) returns (order: seq<Line>)
    ensures order == walked + Rest(rows, visited, 0)
  {
    order := walked;
    for i := 0 to |rows|
      invariant order + Rest(rows, visited, i) == walked + Rest(rows, visited, 0)
    {
      if i !in visited {
        order := order + [Line(i, 0)];
      }
    }
  }

  // ---------- every row exactly once ----------

  ghost function Listed(order: seq<Line>): set<nat> {
    set line | line in order :: line.index
  }

  ghost predicate NoRepeats(order: seq<Line>) {
    forall a, b :: 0 <= a < b < |order| ==> order[a].index != order[b].index
  }

  /** The order lists exactly the visited rows, each once. */
  ghost predicate Tracks(w: Walk) {
    NoRepeats(w.order) && Listed(w.order) == w.visited
  }

  lemma EnterTracks(w: Walk, i: nat, depth: nat)
    requires Tracks(w) && i !in w.visited
    ensures Tracks(Enter(w, i, depth))
  {
    var next := Enter(w, i, depth);
    forall a | 0 <= a < |w.order|
      ensures w.order[a].index != i
    {
      assert w.order[a].index in Listed(w.order);
    }
    assert forall line :: line in next.order <==> line in w.order || line == Line(i, depth);
    assert Line(i, depth) in next.order;
    assert Listed(next.order) == Listed(w.order) + {i};
  }

  lemma {:induction false} WalkTracks(rows: seq<Row>, siblings: seq<nat>, depth: nat, w: Walk)
    requires forall k :: 0 <= k < |siblings| ==> siblings[k] < |rows|
    requires w.visited <= Indices(rows) && Tracks(w)
    ensures Tracks(WalkList(rows, siblings, depth, w))
    decreases Indices(rows) - w.visited, |siblings|
  {
    if siblings != [] {
      WalkStep(rows, siblings, depth, w);
      if siblings[0] in w.visited {
        WalkTracks(rows, siblings[1..], depth, w);
      } else {
        var i := siblings[0];
        var kids, inside := Children(rows, Some(rows[i].pid)), Enter(w, i, depth);
        EnterTracks(w, i, depth);
        WalkTracks(rows, kids, depth + 1, inside);
        WalkTracks(rows, siblings[1..], depth, WalkList(rows, kids, depth + 1, inside));
      }
    }
  }

  /** For any rows whatever, the listing is a permutation of all row indices. */
  lemma OrderIsPermutation(rows: seq<Row>)
    ensures var order := TreeOrder(rows);
            NoRepeats(order) && Listed(order) == Indices(rows) && |order| == |rows|
  {
    var w := TreeWalk(rows);
    var rest := Rest(rows, w.visited, 0);
    var order := w.order + rest;
    WalkTracks(rows, Children(rows, None), 0, Walk({}, []));
    forall i
      ensures i in Listed(order) <==> 0 <= i < |rows|
    {
      if 0 <= i < |rows| && i !in w.visited {
        assert Line(i, 0) in order;
      } else if i in w.visited {
        assert i in Listed(w.order);
      }
      if i in Listed(order) {
        var line :| line in order && line.index == i;
        if line in w.order {
          assert i in Listed(w.order);
        }
      }
    }
    forall a, b | 0 <= a < b < |order|
      ensures order[a].index != order[b].index
    {
      if a < |w.order| <= b {
        assert w.order[a].index in Listed(w.order);
      }
    }
    CountOfDistinct(order);
  }

  lemma {:induction false} CountOfDistinct(order: seq<Line>)
    requires NoRepeats(order)
    ensures |Listed(order)| == |order|
  {
    if order != [] {
      var front, last := order[..|order| - 1], order[|order| - 1];
      CountOfDistinct(front);
      assert order == front + [last];
      assert forall line :: line in order <==> line in front || line == last;
      assert Listed(order) == Listed(front) + {last.index};
    } else {
      assert Listed(order) == {};
    }
  }

  // ---------- ancestry ----------

  predicate ChildOf(rows: seq<Row>, j: nat, i: nat) {
    j < |rows| && i < |rows| && rows[j].parent == Some(rows[i].pid)
  }

  /** A chain of rows from a root downward, each the child of the one before. */
  ghost predicate IsPath(rows: seq<Row>, p: seq<nat>) {
    && |p| > 0
    && if |p| == 1 then p[0] < |rows| && rows[p[0]].parent == None
       else ChildOf(rows, p[|p| - 1], p[|p| - 2]) && IsPath(rows, p[..|p| - 1])
  }

  ghost predicate PathTo(rows: seq<Row>, p: seq<nat>, i: nat) {
    IsPath(rows, p) && p[|p| - 1] == i
  }

  /** A row whose parent chain reaches a root. */
  ghost predicate Rooted(rows: seq<Row>, i: nat) {
    exists p :: PathTo(rows, p, i)
  }

  ghost predicate DistinctPids(rows: seq<Row>) {
    forall i, j :: 0 <= i < j < |rows| ==> rows[i].pid != rows[j].pid
  }

  /** With distinct pids a row has at most one path: its ancestors are determined. */
  lemma {:induction false} PathIsUnique(rows: seq<Row>, p: seq<nat>, q: seq<nat>, i: nat)
    requires DistinctPids(rows) && PathTo(rows, p, i) && PathTo(rows, q, i)
    ensures p == q
    decreases |p|
  {
    if |p| == 1 {
      assert p == [i] && q == [i];
    } else {
      assert |q| > 1;
      PathIsUnique(rows, p[..|p| - 1], q[..|q| - 1], p[|p| - 2]);
      assert p == p[..|p| - 1] + [i] && q == q[..|q| - 1] + [i];
    }
  }

  ghost function PathOf(rows: seq<Row>, i: nat): (p: seq<nat>)
    requires Rooted(rows, i)
    ensures PathTo(rows, p, i)
  {
    var p :| PathTo(rows, p, i);
    p
  }

  /** Every sibling extends the path of their parent (the empty path for roots). */
  ghost predicate ExtendPath(rows: seq<Row>, parent: seq<nat>, siblings: seq<nat>) {
    forall k :: 0 <= k < |siblings| ==> siblings[k] < |rows| && IsPath(rows, parent + [siblings[k]])
  }

  lemma ChildrenExtend(rows: seq<Row>, p: seq<nat>, i: nat)
    requires PathTo(rows, p, i) && i < |rows|
    ensures ExtendPath(rows, p, Children(rows, Some(rows[i].pid)))
  {
    var kids := Children(rows, Some(rows[i].pid));
    ChildrenAreExact(rows, Some(rows[i].pid), |rows|);
    forall k | 0 <= k < |kids|
      ensures IsPath(rows, p + [kids[k]])
    {
      var longer := p + [kids[k]];
      assert longer[..|longer| - 1] == p;
    }
  }

  lemma ChildIsFiled(rows: seq<Row>, key: Option<int>, k: nat)
    requires k < |Children(rows, key)|
    ensures rows[Children(rows, key)[k]].parent == key
  {
    ChildrenAreExact(rows, key, |rows|);
  }

  lemma RootsExtend(rows: seq<Row>)
    ensures ExtendPath(rows, [], Children(rows, None))
  {
    var roots := Children(rows, None);
    forall k | 0 <= k < |roots|
      ensures IsPath(rows, [] + [roots[k]])
    {
      ChildIsFiled(rows, None, k);
      assert [] + [roots[k]] == [roots[k]];
    }
  }

  // ---------- the lines one walk adds ----------

  ghost function Added(rows: seq<Row>, siblings: seq<nat>, depth: nat, w: Walk): seq<Line>
    requires forall k :: 0 <= k < |siblings| ==> siblings[k] < |rows|
    requires w.visited <= Indices(rows)
  {
    WalkList(rows, siblings, depth, w).order[|w.order|..]
  }

  lemma AddedStep(rows: seq<Row>, siblings: seq<nat>, depth: nat, w: Walk)
    requires forall k :: 0 <= k < |siblings| ==> siblings[k] < |rows|
    requires w.visited <= Indices(rows) && siblings != [] && siblings[0] !in w.visited
    ensures var i := siblings[0];
            var kids := Children(rows, Some(rows[i].pid));
            var inside := Enter(w, i, depth);
            var below := WalkList(rows, kids, depth + 1, inside);
            Added(rows, siblings, depth, w)
            == [Line(i, depth)] + Added(rows, kids, depth + 1, inside) + Added(rows, siblings[1..], depth, below)
  {
    var i, rest := siblings[0], siblings[1..];
    var inside, kids := Enter(w, i, depth), Children(rows, Some(rows[i].pid));
    var below := WalkList(rows, kids, depth + 1, inside);
    WalkStep(rows, siblings, depth, w);
    OrderSplits(w.order, [Line(i, depth)], below.order, WalkList(rows, rest, depth, below).order);
  }

  lemma OrderSplits(a: seq<Line>, head: seq<Line>, b: seq<Line>, c: seq<Line>)
    requires a + head <= b <= c
    ensures c[|a|..] == head + b[|a + head|..] + c[|b|..]
  {
    assert b == a + head + b[|a + head|..] && c == b + c[|b|..];
  }

  /** The line stands for a row at or below the given sibling, at the depth of its path. */
  ghost predicate Under(rows: seq<Row>, stem: seq<nat>, line: Line) {
    exists p :: PathTo(rows, p, line.index) && |p| == line.depth + 1 && stem <= p
  }

  ghost predicate UnderSome(rows: seq<Row>, parent: seq<nat>, siblings: seq<nat>, line: Line) {
    exists k :: 0 <= k < |siblings| && Under(rows, parent + [siblings[k]], line)
  }

  /** Every line stands below one of the siblings. */
  ghost predicate AllUnder(rows: seq<Row>, parent: seq<nat>, siblings: seq<nat>, lines: seq<Line>) {
    forall line :: line in lines ==> UnderSome(rows, parent, siblings, line)
  }

  lemma {:induction false} WalkStaysUnder(rows: seq<Row>, siblings: seq<nat>, depth: nat, w: Walk, parent: seq<nat>)
    requires ExtendPath(rows, parent, siblings) && |parent| == depth && w.visited <= Indices(rows)
    ensures AllUnder(rows, parent, siblings, Added(rows, siblings, depth, w))
    decreases Indices(rows) - w.visited, |siblings|
  {
    if siblings != [] {
      var i, rest := siblings[0], siblings[1..];
      if i in w.visited {
        WalkStaysUnder(rows, rest, depth, w, parent);
        UnderRest(rows, parent, siblings, Added(rows, rest, depth, w));
      } else {
        var inside, kids := Enter(w, i, depth), Children(rows, Some(rows[i].pid));
        var below := WalkList(rows, kids, depth + 1, inside);
        AddedStep(rows, siblings, depth, w);
        ChildrenExtend(rows, parent + [i], i);
        WalkStaysUnder(rows, kids, depth + 1, inside, parent + [i]);
        WalkStaysUnder(rows, rest, depth, below, parent);
        UnderAll(rows, parent, siblings, kids, Added(rows, kids, depth + 1, inside), Added(rows, rest, depth, below));
      }
    }
  }

  /** A sibling's own line, lines below it, and lines below later siblings. */
  lemma UnderAll(rows: seq<Row>, parent: seq<nat>, siblings: seq<nat>, kids: seq<nat>,
                 below: seq<Line>, after: seq<Line>)
    requires siblings != [] && ExtendPath(rows, parent, siblings)
    requires AllUnder(rows, parent + [siblings[0]], kids, below) && AllUnder(rows, parent, siblings[1..], after)
    ensures AllUnder(rows, parent, siblings, [Line(siblings[0], |parent|)] + below + after)
  {
    UnderSelf(rows, parent, siblings);
    UnderChild(rows, parent, siblings, kids, below);
    UnderRest(rows, parent, siblings, after);
  }

  lemma UnderSelf(rows: seq<Row>, parent: seq<nat>, siblings: seq<nat>)
    requires siblings != [] && ExtendPath(rows, parent, siblings)
    ensures UnderSome(rows, parent, siblings, Line(siblings[0], |parent|))
  {
    assert PathTo(rows, parent + [siblings[0]], siblings[0]);
    assert Under(rows, parent + [siblings[0]], Line(siblings[0], |parent|));
  }

  lemma UnderRest(rows: seq<Row>, parent: seq<nat>, siblings: seq<nat>, lines: seq<Line>)
    requires siblings != [] && AllUnder(rows, parent, siblings[1..], lines)
    ensures AllUnder(rows, parent, siblings, lines)
  {
    forall line | line in lines
      ensures UnderSome(rows, parent, siblings, line)
    {
      var k :| 0 <= k < |siblings[1..]| && Under(rows, parent + [siblings[1..][k]], line);
      assert siblings[k + 1] == siblings[1..][k];
    }
  }

  lemma UnderChild(rows: seq<Row>, parent: seq<nat>, siblings: seq<nat>, kids: seq<nat>, lines: seq<Line>)
    requires siblings != [] && AllUnder(rows, parent + [siblings[0]], kids, lines)
    ensures AllUnder(rows, parent, siblings, lines)
  {
    var stem := parent + [siblings[0]];
    forall line | line in lines
      ensures UnderSome(rows, parent, siblings, line)
    {
      var k :| 0 <= k < |kids| && Under(rows, stem + [kids[k]], line);
      var p :| PathTo(rows, p, line.index) && |p| == line.depth + 1 && stem + [kids[k]] <= p;
      assert stem <= p;
      assert Under(rows, parent + [siblings[0]], line);
    }
  }

  // ---------- what the walk reaches ----------

  ghost predicate ChildrenIn(rows: seq<Row>, i: nat, visited: set<nat>) {
    forall j :: ChildOf(rows, j, i) ==> j in visited
  }

  /** Everything newly reached brings its children along, and every sibling is reached. */
  lemma {:induction false} WalkCloses(rows: seq<Row>, siblings: seq<nat>, depth: nat, w: Walk)
    requires forall k :: 0 <= k < |siblings| ==> siblings[k] < |rows|
    requires w.visited <= Indices(rows)
    ensures var r := WalkList(rows, siblings, depth, w);
            && (forall k :: 0 <= k < |siblings| ==> siblings[k] in r.visited)
            && (forall i :: i in r.visited && i !in w.visited ==> ChildrenIn(rows, i, r.visited))
    decreases Indices(rows) - w.visited, |siblings|
  {
    if siblings != [] {
      var i, rest := siblings[0], siblings[1..];
      var r := WalkList(rows, siblings, depth, w);
      if i in w.visited {
        WalkCloses(rows, rest, depth, w);
      } else {
        var inside, kids := Enter(w, i, depth), Children(rows, Some(rows[i].pid));
        var below := WalkList(rows, kids, depth + 1, inside);
        WalkStep(rows, siblings, depth, w);
        WalkCloses(rows, kids, depth + 1, inside);
        WalkCloses(rows, rest, depth, below);
        ChildrenAreExact(rows, Some(rows[i].pid), |rows|);
        assert forall j :: ChildOf(rows, j, i) ==> j in kids;
        assert forall j :: j in kids ==> j in below.visited;
      }
      assert forall k :: 1 <= k < |siblings| ==> siblings[k] == rest[k - 1];
    }
  }

  lemma {:induction false} PathIsVisited(rows: seq<Row>, p: seq<nat>, visited: set<nat>)
    requires IsPath(rows, p)
    requires forall i :: 0 <= i < |rows| && rows[i].parent == None ==> i in visited
    requires forall i :: i in visited ==> ChildrenIn(rows, i, visited)
    ensures p[|p| - 1] in visited
    decreases |p|
  {
    if |p| > 1 {
      PathIsVisited(rows, p[..|p| - 1], visited);
      assert ChildrenIn(rows, p[|p| - 2], visited);
    }
  }

  lemma ReachedIsRooted(rows: seq<Row>, i: nat)
    requires i in TreeWalk(rows).visited
    ensures Rooted(rows, i)
  {
    var start, roots := Walk({}, []), Children(rows, None);
    var w := TreeWalk(rows);
    RootsExtend(rows);
    WalkStaysUnder(rows, roots, 0, start, []);
    WalkTracks(rows, roots, 0, start);
    assert i in Listed(w.order);
    var line :| line in w.order && line.index == i;
    assert Added(rows, roots, 0, start) == w.order;
    assert UnderSome(rows, [], roots, line);
  }

  lemma RootedIsReached(rows: seq<Row>, i: nat)
    requires Rooted(rows, i)
    ensures i in TreeWalk(rows).visited
  {
    var roots := Children(rows, None);
    WalkCloses(rows, roots, 0, Walk({}, []));
    ChildrenAreExact(rows, None, |rows|);
    PathIsVisited(rows, PathOf(rows, i), TreeWalk(rows).visited);
  }

  /** For any rows, the walk reaches exactly the rooted ones. */
  lemma WalkReachesRooted(rows: seq<Row>)
    ensures forall i :: i in TreeWalk(rows).visited <==> Rooted(rows, i)
  {
    forall i
      ensures i in TreeWalk(rows).visited <==> Rooted(rows, i)
    {
      if i in TreeWalk(rows).visited {
        ReachedIsRooted(rows, i);
      }
      if Rooted(rows, i) {
        RootedIsReached(rows, i);
      }
    }
  }

  // ---------- preorder ----------

  /** Lexicographic order on paths: an ancestor before its descendants, siblings by index. */
  ghost predicate Before(p: seq<nat>, q: seq<nat>) {
    exists k :: DivergeAt(p, q, k)
  }

  ghost predicate DivergeAt(p: seq<nat>, q: seq<nat>, k: nat) {
    && k <= |p| && k < |q| && p[..k] == q[..k]
    && (k == |p| || p[k] < q[k])
  }

  /** A rooted row shown at its true depth: its number of ancestors. */
  ghost predicate WellPlaced(rows: seq<Row>, line: Line) {
    Rooted(rows, line.index) && line.depth == |PathOf(rows, line.index)| - 1
  }

  ghost predicate LineBefore(rows: seq<Row>, x: Line, y: Line) {
    Rooted(rows, x.index) && Rooted(rows, y.index) && Before(PathOf(rows, x.index), PathOf(rows, y.index))
  }

  /** Rooted rows at their true depth, in strictly increasing path order. */
  ghost predicate Preorder(rows: seq<Row>, lines: seq<Line>) {
    && (forall line :: line in lines ==> WellPlaced(rows, line))
    && (forall a, b :: 0 <= a < b < |lines| ==> LineBefore(rows, lines[a], lines[b]))
  }

  /** The row's path starts with the given stem. */
  ghost predicate Through(rows: seq<Row>, stem: seq<nat>, line: Line) {
    Rooted(rows, line.index) && stem <= PathOf(rows, line.index)
  }

  lemma UnderByPathOf(rows: seq<Row>, stem: seq<nat>, line: Line)
    requires DistinctPids(rows) && Under(rows, stem, line)
    ensures WellPlaced(rows, line) && Through(rows, stem, line)
  {
    var p :| PathTo(rows, p, line.index) && |p| == line.depth + 1 && stem <= p;
    PathIsUnique(rows, p, PathOf(rows, line.index), line.index);
  }

  /** A row comes before everything below it. */
  lemma AncestorFirst(rows: seq<Row>, stem: seq<nat>, i: nat, kids: seq<nat>, line: Line)
    requires DistinctPids(rows) && PathTo(rows, stem, i) && UnderSome(rows, stem, kids, line)
    ensures LineBefore(rows, Line(i, |stem| - 1), line) && Through(rows, stem, line)
  {
    var k :| 0 <= k < |kids| && Under(rows, stem + [kids[k]], line);
    UnderByPathOf(rows, stem + [kids[k]], line);
    PathIsUnique(rows, stem, PathOf(rows, i), i);
    assert DivergeAt(PathOf(rows, i), PathOf(rows, line.index), |stem|);
  }

  /** Everything below a sibling comes before everything below a later one. */
  lemma SiblingsInOrder(rows: seq<Row>, parent: seq<nat>, i: nat, rest: seq<nat>, x: Line, y: Line)
    requires DistinctPids(rows) && forall k :: 0 <= k < |rest| ==> i < rest[k]
    requires Through(rows, parent + [i], x)
    requires UnderSome(rows, parent, rest, y)
    ensures LineBefore(rows, x, y)
  {
    var k :| 0 <= k < |rest| && Under(rows, parent + [rest[k]], y);
    UnderByPathOf(rows, parent + [rest[k]], y);
    var p, q := PathOf(rows, x.index), PathOf(rows, y.index);
    assert p[..|parent|] == (parent + [i])[..|parent|] && q[..|parent|] == (parent + [rest[k]])[..|parent|];
    assert DivergeAt(p, q, |parent|);
  }

  ghost predicate Ascending(siblings: seq<nat>) {
    forall a, b :: 0 <= a < b < |siblings| ==> siblings[a] < siblings[b]
  }

  lemma ChildrenAscend(rows: seq<Row>, key: Option<int>)
    ensures Ascending(Children(rows, key))
  {
    ChildrenAreExact(rows, key, |rows|);
  }

  lemma FirstBelowRest(siblings: seq<nat>)
    requires siblings != [] && Ascending(siblings)
    ensures Ascending(siblings[1..])
    ensures forall k :: 0 <= k < |siblings[1..]| ==> siblings[0] < siblings[1..][k]
  {
  }

  /** A row, then lines below it, then lines below later siblings: in preorder throughout. */
  lemma JoinPreorders(rows: seq<Row>, parent: seq<nat>, i: nat, kids: seq<nat>, rest: seq<nat>,
                      below: seq<Line>, after: seq<Line>)
    requires DistinctPids(rows) && IsPath(rows, parent + [i])
    requires forall k :: 0 <= k < |rest| ==> i < rest[k]
    requires AllUnder(rows, parent + [i], kids, below) && AllUnder(rows, parent, rest, after)
    requires Preorder(rows, below) && Preorder(rows, after)
    ensures Preorder(rows, [Line(i, |parent|)] + below + after)
  {
    var head, stem := Line(i, |parent|), parent + [i];
    HeadThrough(rows, stem, i);
    forall line | line in below
      ensures LineBefore(rows, head, line) && Through(rows, stem, line)
    {
      AncestorFirst(rows, stem, i, kids, line);
    }
    forall x, y | (x == head || x in below) && y in after
      ensures LineBefore(rows, x, y)
    {
      SiblingsInOrder(rows, parent, i, rest, x, y);
    }
    ConcatPreorders(rows, head, below, after);
  }

  lemma HeadThrough(rows: seq<Row>, stem: seq<nat>, i: nat)
    requires DistinctPids(rows) && PathTo(rows, stem, i)
    ensures WellPlaced(rows, Line(i, |stem| - 1)) && Through(rows, stem, Line(i, |stem| - 1))
  {
    PathIsUnique(rows, stem, PathOf(rows, i), i);
  }

  lemma ConcatPreorders(rows: seq<Row>, head: Line, below: seq<Line>, after: seq<Line>)
    requires WellPlaced(rows, head) && Preorder(rows, below) && Preorder(rows, after)
    requires forall line :: line in below ==> LineBefore(rows, head, line)
    requires forall x, y :: (x == head || x in below) && y in after ==> LineBefore(rows, x, y)
    ensures Preorder(rows, [head] + below + after)
  {
    var lines := [head] + below + after;
    forall a, b | 0 <= a < b < |lines|
      ensures LineBefore(rows, lines[a], lines[b])
    {
      var n := 1 + |below|;
      assert 1 <= a < n ==> lines[a] == below[a - 1] && lines[a] in below;
      assert 1 <= b < n ==> lines[b] == below[b - 1] && lines[b] in below;
      assert n <= a ==> lines[a] == after[a - n];
      assert n <= b ==> lines[b] == after[b - n] && lines[b] in after;
    }
  }

  /** With distinct pids, the lines a walk adds come in preorder. */
  lemma {:induction false} WalkSorts(rows: seq<Row>, siblings: seq<nat>, depth: nat, w: Walk, parent: seq<nat>)
    requires DistinctPids(rows) && ExtendPath(rows, parent, siblings) && |parent| == depth
    requires w.visited <= Indices(rows)
    requires Ascending(siblings)
    ensures Preorder(rows, Added(rows, siblings, depth, w))
    decreases Indices(rows) - w.visited, |siblings|
  {
    if siblings != [] {
      var i, rest := siblings[0], siblings[1..];
      FirstBelowRest(siblings);
      if i in w.visited {
        WalkSorts(rows, rest, depth, w, parent);
      } else {
        var inside, kids := Enter(w, i, depth), Children(rows, Some(rows[i].pid));
        var below := WalkList(rows, kids, depth + 1, inside);
        AddedStep(rows, siblings, depth, w);
        ChildrenAscend(rows, Some(rows[i].pid));
        ChildrenExtend(rows, parent + [i], i);
        WalkSorts(rows, kids, depth + 1, inside, parent + [i]);
        WalkStaysUnder(rows, kids, depth + 1, inside, parent + [i]);
        WalkSorts(rows, rest, depth, below, parent);
        WalkStaysUnder(rows, rest, depth, below, parent);
        JoinPreorders(rows, parent, i, kids, rest,
                      Added(rows, kids, depth + 1, inside), Added(rows, rest, depth, below));
      }
    }
  }

  /** With distinct pids, first the rooted rows, in preorder and indented by their number of ancestors;
      then all others, at depth 0 in index order. */
  lemma OrderIsForestThenOthers(rows: seq<Row>)
    requires DistinctPids(rows)
    ensures var order := TreeOrder(rows);
            var m := |TreeWalk(rows).order|;
            && m <= |order|
            && Preorder(rows, order[..m])
            && (forall i :: i in Listed(order[..m]) <==> Rooted(rows, i))
            && (forall line :: line in order[m..] <==>
                 line.depth == 0 && line.index < |rows| && !Rooted(rows, line.index))
            && (forall a, b :: m <= a < b < |order| ==> order[a].index < order[b].index)
  {
    var start, roots := Walk({}, []), Children(rows, None);
    var w := TreeWalk(rows);
    var rest := Rest(rows, w.visited, 0);
    WalkReachesRooted(rows);
    WalkTracks(rows, roots, 0, start);
    RootsExtend(rows);
    ChildrenAscend(rows, None);
    WalkSorts(rows, roots, 0, start, []);
    assert Added(rows, roots, 0, start) == w.order;
    var order := TreeOrder(rows);
    assert order[..|w.order|] == w.order && order[|w.order|..] == rest;
    forall line
      ensures line in rest <==> line.depth == 0 && line.index < |rows| && !Rooted(rows, line.index)
    {
      if line.depth == 0 && line.index < |rows| && !Rooted(rows, line.index) {
        assert line == Line(line.index, 0);
      }
    }
  }

  lemma RootIsRooted(rows: seq<Row>, i: nat)
    requires i < |rows| && rows[i].parent == None
    ensures Rooted(rows, i)
  {
    assert PathTo(rows, [i], i);
  }

  lemma ChildOfRootedIsRooted(rows: seq<Row>, i: nat, j: nat)
    requires ChildOf(rows, i, j) && Rooted(rows, j)
    ensures Rooted(rows, i)
  {
    var p := PathOf(rows, j) + [i];
    assert p[..|p| - 1] == PathOf(rows, j);
    assert PathTo(rows, p, i);
  }

  /** What being left for the end means: a row is rooted if and only if no row has its parent pid, or
      some row that has it is rooted. So an unrooted row has parents among the rows, all unrooted, and
      following them never ends. */
  lemma RootedIffParentRooted(rows: seq<Row>, i: nat)
    requires i < |rows|
    ensures var r := Resolved(rows);
            && (Rooted(r, i) <==> (r[i].parent == None || exists j :: ChildOf(r, i, j) && Rooted(r, j)))
            && (r[i].parent == None || exists j :: ChildOf(r, i, j))
  {
    var r := Resolved(rows);
    if r[i].parent == None {
      RootIsRooted(r, i);
    } else {
      var parent :| 0 <= parent < |rows| && rows[parent].pid == rows[i].parent.value;
      assert ChildOf(r, i, parent);
      if Rooted(r, i) {
        var p := PathOf(r, i);
        assert ChildOf(r, i, p[|p| - 2]) && PathTo(r, p[..|p| - 1], p[|p| - 2]);
      }
      if j :| ChildOf(r, i, j) && Rooted(r, j) {
        ChildOfRootedIsRooted(r, i, j);
      }
    }
  }

  // ---------- cycles ----------

  /** A walk upward from row i, from child to parent. */
  ghost predicate IsAscent(rows: seq<Row>, c: seq<nat>, i: nat) {
    && c != [] && c[0] == i
    && forall k :: 0 <= k < |c| - 1 ==> ChildOf(rows, c[k], c[k + 1])
  }

  ghost predicate Repeats(c: seq<nat>) {
    exists a, b :: 0 <= a < b < |c| && c[a] == c[b]
  }

  /** Going up from row i from child to parent, some row is met twice. */
  ghost predicate OnOrBelowCycle(rows: seq<Row>, i: nat) {
    exists c :: IsAscent(rows, c, i) && Repeats(c)
  }

  lemma CardinalityOfPart(a: set<nat>, b: set<nat>)
    requires a <= b
    ensures |a| <= |b|
  {
    assert b == a + (b - a);
  }

  /** Among more row indices than there are rows, one is repeated. */
  lemma Pigeonhole(c: seq<nat>, n: nat)
    requires |c| > n && forall k :: 0 <= k < |c| ==> c[k] < n
    ensures Repeats(c)
  {
    if !Repeats(c) {
      var lines := seq(|c|, k requires 0 <= k < |c| => Line(c[k], 0));
      CountOfDistinct(lines);
      CardinalityOfPart(Listed(lines), Below(n));
    }
  }

  /** From an unrooted row one can go up any number of steps. */
  lemma {:induction false} UnrootedAscends(rows: seq<Row>, i: nat, n: nat) returns (c: seq<nat>)
    requires i < |rows| && !Rooted(Resolved(rows), i)
    ensures IsAscent(Resolved(rows), c, i) && |c| == n + 1
    ensures forall k :: 0 <= k < |c| ==> c[k] < |rows|
    decreases n
  {
    if n == 0 {
      c := [i];
    } else {
      var r := Resolved(rows);
      RootedIffParentRooted(rows, i);
      var parent :| ChildOf(r, i, parent);
      var above := UnrootedAscends(rows, parent, n - 1);
      c := [i] + above;
      assert forall k :: 1 <= k < |c| ==> c[k] == above[k - 1];
    }
  }

  /** From a rooted row, going up follows its path downward from the end. */
  lemma {:induction false} AscentFollowsPath(rows: seq<Row>, p: seq<nat>, c: seq<nat>, i: nat, k: nat)
    requires DistinctPids(rows) && PathTo(rows, p, i) && IsAscent(rows, c, i) && k < |c|
    ensures k < |p| && PathTo(rows, p[..|p| - k], c[k])
    decreases k
  {
    if k == 0 {
      assert p[..|p|] == p;
    } else {
      AscentFollowsPath(rows, p, c, i, k - 1);
      var q := p[..|p| - (k - 1)];
      assert ChildOf(rows, c[k - 1], c[k]);
      assert |q| > 1 && ChildOf(rows, c[k - 1], q[|q| - 2]);
      assert q[..|q| - 1] == p[..|p| - k];
    }
  }

  /** With distinct pids, a row is unrooted exactly when it lies on or below a cycle. */
  lemma UnrootedIffCycle(rows: seq<Row>, i: nat)
    requires DistinctPids(rows) && i < |rows|
    ensures !Rooted(Resolved(rows), i) <==> OnOrBelowCycle(Resolved(rows), i)
  {
    var r := Resolved(rows);
    if !Rooted(r, i) {
      var c := UnrootedAscends(rows, i, |rows|);
      Pigeonhole(c, |rows|);
      assert IsAscent(r, c, i) && Repeats(c);
    } else if OnOrBelowCycle(r, i) {
      var c :| IsAscent(r, c, i) && Repeats(c);
      var a, b :| 0 <= a < b < |c| && c[a] == c[b];
      var p := PathOf(r, i);
      AscentFollowsPath(r, p, c, i, a);
      AscentFollowsPath(r, p, c, i, b);
      PathIsUnique(r, p[..|p| - a], p[..|p| - b], c[a]);
      assert false;
    }
  }

  /** The listing: with distinct pids, first the rows whose parent chain reaches a root, in preorder
      and indented by their number of ancestors; then all rows on or below a cycle, and no others, at
      depth 0 in index order. */
  lemma OrderIsForestThenRest(rows: seq<Row>)
    requires DistinctPids(rows)
    ensures var r := Resolved(rows);
            var order := TreeOrder(r);
            var m := |TreeWalk(r).order|;
            && m <= |order|
            && Preorder(r, order[..m])
            && (forall i: nat :: i in Listed(order[..m]) <==> i < |rows| && !OnOrBelowCycle(r, i))
            && (forall line :: line in order[m..] <==>
                 line.depth == 0 && line.index < |rows| && OnOrBelowCycle(r, line.index))
            && (forall a, b :: m <= a < b < |order| ==> order[a].index < order[b].index)
  {
    var r := Resolved(rows);
    OrderIsForestThenOthers(r);
    forall i: nat
      ensures Rooted(r, i) <==> i < |rows| && !OnOrBelowCycle(r, i)
    {
      if i < |rows| {
        UnrootedIffCycle(rows, i);
      }
    }
  }
}
