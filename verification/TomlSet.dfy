/** Setting a value in a nested configuration table by dotted path (src/cli_app.rs). */
module TomlSet {
  import opened Basics
  import opened Dots

  /** A configuration tree; `Leaf` is any value that is not a table. */
  datatype Toml = Leaf(value: string) | Table(entries: map<string, Toml>)

  // ---------- reading and writing by key list ----------

  function Get(t: Toml, path: seq<string>): Option<Toml> {
    if path == [] then Some(t)
    else if t.Table? && path[0] in t.entries then Get(t.entries[path[0]], path[1..])
    else None
  }

  predicate IsTable(found: Option<Toml>) {
    found.Some? && found.value.Table?
  }

  /** A table with one entry replaced or added. */
  function With(t: Toml, key: string, child: Toml): Toml
    requires t.Table?
  {
    Table(t.entries[key := child])
  }

  /** The tree with one entry of an existing table replaced or added. */
  function Insert(t: Toml, path: seq<string>, key: string, v: Toml): Toml
    requires IsTable(Get(t, path))
  {
    if path == [] then With(t, key, v)
    else With(t, path[0], Insert(t.entries[path[0]], path[1..], key, v))
  }

  /** What setting a path means: missing tables are supplied on the way; a non-table in the way is an
      error. */
  function SetAt(t: Toml, path: seq<string>, v: Toml): Option<Toml>
    requires path != []
    decreases |path|
  {
    if t.Leaf? then None
    else if |path| == 1 then Some(With(t, path[0], v))
    else
      match SetAt(Child(t, path[0]), path[1..], v)
      case None => None
      case Some(child) => Some(With(t, path[0], child))
  }

  function Child(t: Toml, key: string): Toml
    requires t.Table?
  {
    if key in t.entries then t.entries[key] else Table(map[])
  }

  // ---------- the program: a cursor that inserts tables as it walks ----------

  class Document {
    var root: Toml

    constructor (root: Toml)
      ensures this.root == root
    {
      this.root := root;
    }

    /** Sets the value at a dotted path. On error the document is exactly what it was, although the
        walk inserts tables as it goes. */
    method SetValue(dotPath: string, parsed: Toml) returns (ok: bool)
      modifies this
      ensures ok <==> SetAt(old(root), SplitDots(dotPath), parsed).Some?
      ensures root == if ok then SetAt(old(root), SplitDots(dotPath), parsed).value else old(root)
    {
      var parts := SplitDots(dotPath);
      var n := |parts| - 1;
      var k := 0;
      while k < n
        invariant 0 <= k <= n
        invariant Get(root, parts[..k]).Some?
        invariant SetAt(root, parts, parsed) == SetAt(old(root), parts, parsed)
        invariant root != old(root) ==> Get(root, parts[..k]) == Some(Table(map[]))
      {
        var here := parts[..k];
        var current := Get(root, here);
        if !IsTable(current) {
          LeafInTheWay(root, parts, k, parsed);
          return false;
        }
        CursorStep(root, parts, k, parsed);
        if parts[k] !in current.value.entries {
          root := Insert(root, here, parts[k], Table(map[]));
        }
        k := k + 1;
      }
      var parent := parts[..n];
      if !IsTable(Get(root, parent)) {
        LeafInTheWay(root, parts, n, parsed);
        return false;
      }
      assert parts == parent + [parts[n]];
      LastInsert(root, parent, parts[n], parsed);
      root := Insert(root, parent, parts[n], parsed);
      return true;
    }
  }

  /** What is there when the cursor has moved one key on, supplying a table when there is none. */
  function Supplied(t: Toml, path: seq<string>, key: string): Toml
    requires IsTable(Get(t, path))
  {
    if key in Get(t, path).value.entries then t else Insert(t, path, key, Table(map[]))
  }

  lemma CursorStep(t: Toml, parts: seq<string>, k: nat, v: Toml)
    requires k < |parts| - 1 && IsTable(Get(t, parts[..k]))
    ensures var next := Supplied(t, parts[..k], parts[k]);
            && Get(next, parts[..k + 1]).Some?
            && SetAt(next, parts, v) == SetAt(t, parts, v)
            && (next != t || Get(t, parts[..k]) == Some(Table(map[])) ==>
                 Get(next, parts[..k + 1]) == Some(Table(map[])))
  {
    var here, key := parts[..k], parts[k];
    assert parts[..k + 1] == here + [key];
    if key in Get(t, here).value.entries {
      GetChild(t, here, key);
    } else {
      InsertReads(t, here, key, Table(map[]));
      EmptyTableIsNeutral(t, here, key, parts[k + 1..], v);
      assert parts == here + [key] + parts[k + 1..];
    }
  }

  lemma LeafInTheWay(t: Toml, parts: seq<string>, k: nat, v: Toml)
    requires k < |parts| && Get(t, parts[..k]).Some? && !IsTable(Get(t, parts[..k]))
    ensures SetAt(t, parts, v) == None
  {
    LeafStops(t, parts[..k], parts[k..], v);
    assert parts == parts[..k] + parts[k..];
  }

  lemma WithTwice(t: Toml, key: string, a: Toml)
    requires t.Table?
    ensures forall b :: With(With(t, key, a), key, b) == With(t, key, b)
  {
  }

  lemma {:induction false} GetChild(t: Toml, path: seq<string>, key: string)
    requires IsTable(Get(t, path))
    ensures var entries := Get(t, path).value.entries;
            Get(t, path + [key]) == if key in entries then Some(entries[key]) else None
    decreases |path|
  {
    if path == [] {
      assert path + [key] == [key];
    } else {
      GetChild(t.entries[path[0]], path[1..], key);
      assert (path + [key])[1..] == path[1..] + [key];
    }
  }

  lemma {:induction false} InsertReads(t: Toml, path: seq<string>, key: string, v: Toml)
    requires IsTable(Get(t, path))
    ensures Get(Insert(t, path, key, v), path + [key]) == Some(v)
    decreases |path|
  {
    if path == [] {
      assert path + [key] == [key];
    } else {
      InsertReads(t.entries[path[0]], path[1..], key, v);
      assert (path + [key])[1..] == path[1..] + [key];
    }
  }

  lemma {:induction false} LeafStops(t: Toml, path: seq<string>, rest: seq<string>, v: Toml)
    requires Get(t, path).Some? && !IsTable(Get(t, path)) && rest != []
    ensures SetAt(t, path + rest, v) == None
    decreases |path|
  {
    if path == [] {
      assert path + rest == rest;
    } else {
      LeafStops(t.entries[path[0]], path[1..], rest, v);
      assert (path + rest)[1..] == path[1..] + rest;
    }
  }

  /** Supplying an empty table where one is missing does not change what a deeper set will do. */
  lemma {:induction false} EmptyTableIsNeutral(t: Toml, path: seq<string>, key: string, rest: seq<string>, v: Toml)
    requires IsTable(Get(t, path)) && key !in Get(t, path).value.entries && rest != []
    ensures SetAt(Insert(t, path, key, Table(map[])), path + [key] + rest, v) == SetAt(t, path + [key] + rest, v)
    decreases |path|
  {
    var full := path + [key] + rest;
    if path == [] {
      assert full[1..] == rest;
      WithTwice(t, key, Table(map[]));
    } else {
      var head := path[0];
      EmptyTableIsNeutral(t.entries[head], path[1..], key, rest, v);
      assert full[1..] == path[1..] + [key] + rest;
      WithTwice(t, head, Insert(t.entries[head], path[1..], key, Table(map[])));
    }
  }

  lemma {:induction false} LastInsert(t: Toml, path: seq<string>, key: string, v: Toml)
    requires IsTable(Get(t, path))
    ensures SetAt(t, path + [key], v) == Some(Insert(t, path, key, v))
    decreases |path|
  {
    if path == [] {
      assert path + [key] == [key];
    } else {
      LastInsert(t.entries[path[0]], path[1..], key, v);
      assert (path + [key])[1..] == path[1..] + [key];
    }
  }

  // ---------- what a set promises ----------

  /** Neither path is a prefix of the other. */
  predicate Incomparable(p: seq<string>, q: seq<string>) {
    !(p <= q) && !(q <= p)
  }

  /** A set succeeds exactly when no proper prefix of the path holds something that is not a table. */
  lemma {:induction false} SetSucceedsIff(t: Toml, path: seq<string>, v: Toml)
    requires path != []
    ensures SetAt(t, path, v).Some? <==>
            forall k :: 0 <= k < |path| && Get(t, path[..k]).Some? ==> IsTable(Get(t, path[..k]))
    decreases |path|
  {
    assert path[..0] == [];
    if t.Table? && |path| > 1 {
      var child, rest := Child(t, path[0]), path[1..];
      SetSucceedsIff(child, rest, v);
      forall k | 1 <= k < |path|
        ensures Get(t, path[..k]) == if path[0] in t.entries then Get(child, rest[..k - 1]) else None
      {
        assert path[..k][1..] == rest[..k - 1];
      }
      forall k | 0 <= k < |rest|
        ensures path[0] !in t.entries && Get(child, rest[..k]).Some? ==> IsTable(Get(child, rest[..k]))
        ensures path[0] in t.entries ==> Get(child, rest[..k]) == Get(t, path[..k + 1])
      {
        assert path[..k + 1][1..] == rest[..k];
      }
    }
  }

  /** Reading back what was set. */
  lemma {:induction false} SetThenGet(t: Toml, path: seq<string>, v: Toml)
    requires path != [] && SetAt(t, path, v).Some?
    ensures Get(SetAt(t, path, v).value, path) == Some(v)
    decreases |path|
  {
    if |path| > 1 {
      SetThenGet(Child(t, path[0]), path[1..], v);
    }
  }

  /** Every path that is neither a prefix nor an extension keeps its value. */
  lemma {:induction false} SetFrames(t: Toml, path: seq<string>, v: Toml, other: seq<string>)
    requires path != [] && SetAt(t, path, v).Some? && Incomparable(path, other)
    ensures Get(SetAt(t, path, v).value, other) == Get(t, other)
    decreases |path|
  {
    if path[0] == other[0] {
      assert path == [path[0]] + path[1..] && other == [other[0]] + other[1..];
      SetFrames(Child(t, path[0]), path[1..], v, other[1..]);
    }
  }

  /** Successful sets on incomparable paths commute, and neither makes the other fail. */
  lemma {:induction false} SetsCommute(t: Toml, p: seq<string>, v: Toml, q: seq<string>, w: Toml)
    requires p != [] && q != [] && Incomparable(p, q)
    requires SetAt(t, p, v).Some? && SetAt(t, q, w).Some?
    ensures SetAt(SetAt(t, p, v).value, q, w).Some?
    ensures SetAt(SetAt(t, p, v).value, q, w) == SetAt(SetAt(t, q, w).value, p, v)
    decreases |p|
  {
    if p[0] == q[0] {
      assert p == [p[0]] + p[1..] && q == [q[0]] + q[1..];
      SetsCommute(Child(t, p[0]), p[1..], v, q[1..], w);
      WithTwice(t, p[0], SetAt(t, p, v).value.entries[p[0]]);
      WithTwice(t, p[0], SetAt(t, q, w).value.entries[p[0]]);
    } else {
      var a, b := SetAt(t, p, v).value, SetAt(t, q, w).value;
      assert Child(a, q[0]) == Child(t, q[0]) && Child(b, p[0]) == Child(t, p[0]);
      var cp, cq := a.entries[p[0]], b.entries[q[0]];
      assert With(With(t, p[0], cp), q[0], cq) == With(With(t, q[0], cq), p[0], cp);
    }
  }

  /** Setting a path twice is setting it once, to the last value. */
  lemma {:induction false} LastSetWins(t: Toml, path: seq<string>, v: Toml, w: Toml)
    requires path != [] && SetAt(t, path, v).Some?
    ensures SetAt(SetAt(t, path, v).value, path, w) == SetAt(t, path, w)
    decreases |path|
  {
    WithTwice(t, path[0], SetAt(t, path, v).value.entries[path[0]]);
    if |path| > 1 {
      LastSetWins(Child(t, path[0]), path[1..], v, w);
    }
  }
}
