/** The recursive structural diff between two JSON values (src/cli_app.rs). */
module JsonDiff {
  import opened Basics
  import opened Dots

  datatype Json =
    | Null
    | Bool(b: bool)
    | Number(text: string)
    | Text(s: string)
    | Array(items: seq<Json>)
    | Object(fields: map<string, Json>)

  // ---------- keys in order ----------

  /** Text order, character by character. */
  predicate Leq(a: string, b: string) {
    a == "" || (b != "" && (a[0] < b[0] || (a[0] == b[0] && Leq(a[1..], b[1..]))))
  }

  lemma {:induction false} LeqIsTotalOrder(a: string, b: string, c: string)
    ensures Leq(a, b) || Leq(b, a)
    ensures Leq(a, b) && Leq(b, a) ==> a == b
    ensures Leq(a, b) && Leq(b, c) ==> Leq(a, c)
  {
    if a != "" && b != "" && a[0] == b[0] {
      LeqIsTotalOrder(a[1..], b[1..], if c == "" then "" else c[1..]);
      assert a == [a[0]] + a[1..] && b == [b[0]] + b[1..];
    } else if a != "" && c != "" {
      LeqIsTotalOrder(a[1..], "", c[1..]);
    }
  }

  predicate SmallerAt(a: string, b: string, n: nat) {
    n < |a| && n < |b| && a[..n] == b[..n] && a[n] < b[n]
  }

  lemma SameStart(a: string, b: string, n: nat)
    requires 0 < n <= |a| && n <= |b| && a[..n] == b[..n]
    ensures a[0] == b[0] && a[1..][..n - 1] == b[1..][..n - 1]
  {
    assert a[0] == a[..n][0] && b[0] == b[..n][0];
    assert a[1..][..n - 1] == a[..n][1..] && b[1..][..n - 1] == b[..n][1..];
  }

  /** Dictionary order: the first text is a beginning of the second, or has the smaller character where they
      first differ. */
  lemma {:induction false} LeqIsDictionary(a: string, b: string)
    ensures Leq(a, b) <==> a <= b || exists n: nat :: SmallerAt(a, b, n)
  {
    forall n: nat | n > 0 && SmallerAt(a, b, n)
      ensures a[0] == b[0] && SmallerAt(a[1..], b[1..], n - 1)
    {
      SameStart(a, b, n);
    }
    if a != "" && b != "" {
      if a[0] == b[0] {
        LeqIsDictionary(a[1..], b[1..]);
        assert a <= b <==> a[1..] <= b[1..];
        if n: nat :| SmallerAt(a[1..], b[1..], n) {
          assert a[..n + 1] == [a[0]] + a[1..][..n] && b[..n + 1] == [b[0]] + b[1..][..n];
          assert SmallerAt(a, b, n + 1);
        }
      } else if a[0] < b[0] {
        assert SmallerAt(a, b, 0);
      } else {
        assert forall n: nat :: SmallerAt(a, b, n) ==> n == 0;
      }
    }
  }

  lemma {:induction false} HasLeast(keys: set<string>)
    requires keys != {}
    ensures exists k :: k in keys && IsLeast(k, keys)
    decreases |keys|
  {
    var k :| k in keys;
    LeqIsTotalOrder(k, k, k);
    if keys != {k} {
      HasLeast(keys - {k});
      var least :| least in keys - {k} && IsLeast(least, keys - {k});
      LeqIsTotalOrder(k, least, k);
      if Leq(k, least) {
        LeastExtends(k, least, keys - {k});
        assert IsLeast(k, keys);
      } else {
        assert IsLeast(least, keys);
      }
    } else {
      assert IsLeast(k, keys);
    }
  }

  ghost predicate IsLeast(k: string, keys: set<string>) {
    forall other :: other in keys ==> Leq(k, other)
  }

  lemma LeastExtends(k: string, least: string, keys: set<string>)
    requires Leq(k, least) && IsLeast(least, keys)
    ensures IsLeast(k, keys)
  {
    forall other | other in keys
      ensures Leq(k, other)
    {
      LeqIsTotalOrder(k, least, other);
    }
  }

  /** The keys in ascending order, each once. */
  ghost function SortedKeys(keys: set<string>): (s: seq<string>)
    ensures forall k :: k in s <==> k in keys
    ensures forall i, j :: 0 <= i < j < |s| ==> s[i] != s[j] && Leq(s[i], s[j])
    decreases |keys|
  {
    if keys == {} then []
    else
      HasLeast(keys);
      var k :| k in keys && IsLeast(k, keys);
      [k] + SortedKeys(keys - {k})
  }

  // ---------- the diff ----------

  /** A printed line, with its path as a list of keys. */
  datatype Edit = Minus(path: seq<string>, value: Json) | Plus(path: seq<string>, value: Json)

  ghost function Diff(prefix: seq<string>, default: Json, effective: Json): seq<Edit>
    decreases default, 1, 0
  {
    if default.Object? && effective.Object? then
      DiffKeys(prefix, default, effective, SortedKeys(default.fields.Keys + effective.fields.Keys))
    else if default != effective then [Minus(prefix, default), Plus(prefix, effective)]
    else []
  }

  ghost function DiffKeys(prefix: seq<string>, default: Json, effective: Json, keys: seq<string>): seq<Edit>
    requires default.Object? && effective.Object?
    decreases default, 0, |keys|
  {
    if keys == [] then []
    else DiffKey(prefix, default, effective, keys[0]) + DiffKeys(prefix, default, effective, keys[1..])
  }

  ghost function DiffKey(prefix: seq<string>, default: Json, effective: Json, key: string): seq<Edit>
    requires default.Object? && effective.Object?
    decreases default, 0, 0
  {
    var path := prefix + [key];
    if key in default.fields && key in effective.fields then
      if default.fields[key] != effective.fields[key]
      then Diff(path, default.fields[key], effective.fields[key])
      else []
    else if key in default.fields then [Minus(path, default.fields[key])]
    else if key in effective.fields then [Plus(path, effective.fields[key])]
    else []
  }

  // ---------- applying the lines ----------

  function Field(fields: map<string, Json>, key: string): Option<Json> {
    if key in fields then Some(fields[key]) else None
  }

  function PutField(fields: map<string, Json>, key: string, value: Option<Json>): map<string, Json> {
    match value
    case None => fields - {key}
    case Some(v) => fields[key := v]
  }

  predicate IsObject(state: Option<Json>) {
    state.Some? && state.value.Object?
  }

  /** The value at a path, if there is one. */
  function Get(state: Option<Json>, path: seq<string>): Option<Json>
    decreases |path|
  {
    if path == [] then state
    else if IsObject(state) then Get(Field(state.value.fields, path[0]), path[1..])
    else None
  }

  /** The state with the value at `path` replaced, added or (None) removed; its parent must be an object. */
  function Set(state: Option<Json>, path: seq<string>, value: Option<Json>): Option<Json>
    decreases |path|
  {
    if path == [] then value
    else if IsObject(state) then
      var fields := state.value.fields;
      Some(Object(PutField(fields, path[0], Set(Field(fields, path[0]), path[1..], value))))
    else state
  }

  function ApplyEdit(state: Option<Json>, edit: Edit): Option<Json> {
    match edit
    case Minus(path, _) => Set(state, path, None)
    case Plus(path, value) => Set(state, path, Some(value))
  }

  function Apply(state: Option<Json>, edits: seq<Edit>): Option<Json>
    decreases |edits|
  {
    if edits == [] then state else Apply(ApplyEdit(state, edits[0]), edits[1..])
  }

  lemma {:induction false} ApplyConcat(state: Option<Json>, a: seq<Edit>, b: seq<Edit>)
    ensures Apply(state, a + b) == Apply(Apply(state, a), b)
    decreases |a|
  {
    if a == [] {
      assert a + b == b;
    } else {
      assert (a + b)[1..] == a[1..] + b;
      ApplyConcat(ApplyEdit(state, a[0]), a[1..], b);
    }
  }

  lemma PutFieldFacts(fields: map<string, Json>, key: string, a: Option<Json>)
    ensures Field(PutField(fields, key, a), key) == a
    ensures forall b :: PutField(PutField(fields, key, a), key, b) == PutField(fields, key, b)
    ensures PutField(fields, key, Field(fields, key)) == fields
    ensures forall other :: other != key ==> Field(PutField(fields, key, a), other) == Field(fields, other)
  {
  }

  lemma {:induction false} SetTwice(state: Option<Json>, path: seq<string>, a: Option<Json>, b: Option<Json>)
    requires Get(state, path).Some?
    ensures Set(Set(state, path, a), path, b) == Set(state, path, b)
    decreases |path|
  {
    if path != [] {
      var fields := state.value.fields;
      SetTwice(Field(fields, path[0]), path[1..], a, b);
      PutFieldFacts(fields, path[0], Set(Field(fields, path[0]), path[1..], a));
    }
  }

  lemma {:induction false} GetAfterSet(state: Option<Json>, path: seq<string>, a: Option<Json>)
    requires Get(state, path).Some?
    ensures Get(Set(state, path, a), path) == a
    decreases |path|
  {
    if path != [] {
      var fields := state.value.fields;
      GetAfterSet(Field(fields, path[0]), path[1..], a);
      PutFieldFacts(fields, path[0], Set(Field(fields, path[0]), path[1..], a));
    }
  }

  lemma {:induction false} SetSame(state: Option<Json>, path: seq<string>)
    requires Get(state, path).Some?
    ensures Set(state, path, Get(state, path)) == state
    decreases |path|
  {
    if path != [] {
      var fields := state.value.fields;
      SetSame(Field(fields, path[0]), path[1..]);
      PutFieldFacts(fields, path[0], None);
    }
  }

  /** Setting one key of an object, by the longer path or by rewriting the object. */
  lemma {:induction false} SetBelow(state: Option<Json>, path: seq<string>, key: string, value: Option<Json>)
    requires IsObject(Get(state, path))
    ensures var fields := Get(state, path).value.fields;
            && Set(state, path + [key], value) == Set(state, path, Some(Object(PutField(fields, key, value))))
            && Get(state, path + [key]) == Field(fields, key)
    decreases |path|
  {
    if path == [] {
      assert path + [key] == [key];
    } else {
      SetBelow(Field(state.value.fields, path[0]), path[1..], key, value);
      assert (path + [key])[1..] == path[1..] + [key];
    }
  }

  // ---------- soundness and completeness ----------

  /** The lines of a diff, applied where the default value stands, put the effective value there. */
  lemma {:induction false} DiffApplies(prefix: seq<string>, default: Json, effective: Json, state: Option<Json>)
    requires Get(state, prefix) == Some(default)
    ensures Apply(state, Diff(prefix, default, effective)) == Set(state, prefix, Some(effective))
    decreases default, 1, 0
  {
    if default.Object? && effective.Object? {
      var keys := SortedKeys(default.fields.Keys + effective.fields.Keys);
      KeysApply(prefix, default, effective, keys, state, default.fields);
    } else if default != effective {
      SetTwice(state, prefix, None, Some(effective));
      TwoEdits(state, Minus(prefix, default), Plus(prefix, effective));
    } else {
      SetSame(state, prefix);
    }
  }

  lemma TwoEdits(state: Option<Json>, a: Edit, b: Edit)
    ensures Apply(state, [a, b]) == ApplyEdit(ApplyEdit(state, a), b)
  {
    assert [a, b][1..] == [b];
    OneEdit(ApplyEdit(state, a), b);
  }

  lemma OneEdit(state: Option<Json>, a: Edit)
    ensures Apply(state, [a]) == ApplyEdit(state, a)
  {
    assert [a][1..] == [];
  }

  lemma {:induction false} KeysApply(prefix: seq<string>, default: Json, effective: Json, keys: seq<string>,
                                     state: Option<Json>, now: map<string, Json>)
    requires default.Object? && effective.Object?
    requires Get(state, prefix) == Some(Object(now))
    requires forall i, j :: 0 <= i < j < |keys| ==> keys[i] != keys[j]
    requires forall k :: k in keys ==> Field(now, k) == Field(default.fields, k)
    requires forall k :: k !in keys ==> Field(now, k) == Field(effective.fields, k)
    ensures Apply(state, DiffKeys(prefix, default, effective, keys)) == Set(state, prefix, Some(effective))
    decreases default, 0, |keys|
  {
    if keys == [] {
      SameFields(now, effective.fields);
      SetSame(state, prefix);
    } else {
      var key, rest := keys[0], keys[1..];
      var edits := DiffKey(prefix, default, effective, key);
      var next := PutField(now, key, Field(effective.fields, key));
      var after := Set(state, prefix, Some(Object(next)));
      KeyApplies(prefix, default, effective, key, state, now);
      ApplyConcat(state, edits, DiffKeys(prefix, default, effective, rest));
      GetAfterSet(state, prefix, Some(Object(next)));
      PutFieldFacts(now, key, Field(effective.fields, key));
      assert forall k :: k in keys <==> k == key || k in rest;
      KeysApply(prefix, default, effective, rest, after, next);
      SetTwice(state, prefix, Some(Object(next)), Some(effective));
    }
  }

  lemma SameFields(a: map<string, Json>, b: map<string, Json>)
    requires forall k :: Field(a, k) == Field(b, k)
    ensures a == b
  {
    assert forall k :: k in a <==> Field(a, k).Some?;
    assert forall k :: k in b <==> Field(b, k).Some?;
    assert forall k :: k in a ==> Field(a, k) == Some(a[k]);
    assert forall k :: k in b ==> Field(b, k) == Some(b[k]);
  }

  /** The lines of one key bring that key, and nothing else, to its effective value. */
  lemma {:induction false} KeyApplies(prefix: seq<string>, default: Json, effective: Json, key: string,
                                      state: Option<Json>, now: map<string, Json>)
    requires default.Object? && effective.Object?
    requires Get(state, prefix) == Some(Object(now)) && Field(now, key) == Field(default.fields, key)
    ensures Apply(state, DiffKey(prefix, default, effective, key))
            == Set(state, prefix, Some(Object(PutField(now, key, Field(effective.fields, key)))))
    decreases default, 0, 0
  {
    var path, before, target := prefix + [key], Field(default.fields, key), Field(effective.fields, key);
    SetBelow(state, prefix, key, target);
    if before == target {
      PutFieldFacts(now, key, target);
      SetSame(state, prefix);
    } else if before.Some? && target.Some? {
      DiffApplies(path, before.value, target.value, state);
    } else if before.Some? {
      OneEdit(state, Minus(path, before.value));
    } else {
      OneEdit(state, Plus(path, target.value));
    }
  }

  /** Applying the printed lines to the default value reconstructs the effective value. */
  lemma DiffReconstructs(default: Json, effective: Json)
    ensures Apply(Some(default), Diff([], default, effective)) == Some(effective)
  {
    DiffApplies([], default, effective, Some(default));
  }

  lemma {:induction false} EqualKeysAreSilent(prefix: seq<string>, value: Json, keys: seq<string>)
    requires value.Object?
    ensures DiffKeys(prefix, value, value, keys) == []
    decreases |keys|
  {
    if keys != [] {
      EqualKeysAreSilent(prefix, value, keys[1..]);
    }
  }

  /** Nothing is printed exactly when the values are equal. */
  lemma DiffIsSilentIffEqual(default: Json, effective: Json)
    ensures Diff([], default, effective) == [] <==> default == effective
  {
    DiffReconstructs(default, effective);
    if default == effective && default.Object? {
      EqualKeysAreSilent([], default, SortedKeys(default.fields.Keys + effective.fields.Keys));
    }
  }

  // ---------- what each line says ----------

  /** Both values are objects on the whole way down to the path. */
  ghost predicate ObjectsAbove(default: Json, effective: Json, path: seq<string>) {
    forall n :: 0 <= n < |path| ==>
      IsObject(Get(Some(default), path[..n])) && IsObject(Get(Some(effective), path[..n]))
  }

  /** At the path, the values differ and are not both objects. */
  ghost predicate DiffersAt(default: Json, effective: Json, path: seq<string>) {
    var before, after := Get(Some(default), path), Get(Some(effective), path);
    ObjectsAbove(default, effective, path) && before != after && !(IsObject(before) && IsObject(after))
  }

  /** The lines about a path: what the default value has there is taken away, what the effective value has
      there is added. */
  ghost predicate Says(default: Json, effective: Json, path: seq<string>, edit: Edit) {
    DiffersAt(default, effective, path) &&
    match edit
    case Minus(_, v) => Get(Some(default), path) == Some(v)
    case Plus(_, v) => Get(Some(effective), path) == Some(v)
  }

  lemma BelowKey(default: Json, effective: Json, key: string, rest: seq<string>)
    requires default.Object? && effective.Object?
    requires key in default.fields && key in effective.fields
    ensures DiffersAt(default, effective, [key] + rest)
            <==> DiffersAt(default.fields[key], effective.fields[key], rest)
    ensures Get(Some(default), [key] + rest) == Get(Some(default.fields[key]), rest)
    ensures Get(Some(effective), [key] + rest) == Get(Some(effective.fields[key]), rest)
  {
    var path := [key] + rest;
    assert path[1..] == rest;
    forall n | 0 <= n < |path|
      ensures n > 0 ==> path[..n] == [key] + rest[..n - 1] && path[..n][1..] == rest[..n - 1]
    {
    }
    if ObjectsAbove(default, effective, path) {
      forall n | 0 <= n < |rest|
        ensures IsObject(Get(Some(default.fields[key]), rest[..n]))
        ensures IsObject(Get(Some(effective.fields[key]), rest[..n]))
      {
        assert path[..n + 1][1..] == rest[..n] && path[..n + 1][0] == key;
        assert IsObject(Get(Some(default), path[..n + 1]));
      }
    }
    if ObjectsAbove(default.fields[key], effective.fields[key], rest) {
      forall n | 0 <= n < |path|
        ensures IsObject(Get(Some(default), path[..n])) && IsObject(Get(Some(effective), path[..n]))
      {
        if n > 0 {
          assert path[..n][1..] == rest[..n - 1] && path[..n][0] == key;
        }
      }
    }
  }

  /** Where one value lacks the key, only the key itself can differ. */
  lemma OnlyAtKey(default: Json, effective: Json, key: string, rest: seq<string>)
    requires default.Object? && effective.Object?
    requires key !in default.fields || key !in effective.fields
    ensures DiffersAt(default, effective, [key] + rest)
            <==> rest == [] && (key in default.fields || key in effective.fields)
  {
    var path := [key] + rest;
    assert path[..0] == [];
    if rest == [] {
      assert path == [key] && path[1..] == [];
      assert Get(Some(default), path) == Field(default.fields, key);
      assert Get(Some(effective), path) == Field(effective.fields, key);
    } else {
      assert path[..1] == [key] && path[..1][1..] == [];
      assert Get(Some(default), path[..1]) == Field(default.fields, key);
      assert Get(Some(effective), path[..1]) == Field(effective.fields, key);
    }
  }

  function Relative(prefix: seq<string>, edit: Edit): Edit
    requires prefix <= edit.path
  {
    match edit
    case Minus(p, v) => Minus(p[|prefix|..], v)
    case Plus(p, v) => Plus(p[|prefix|..], v)
  }

  function Absolute(prefix: seq<string>, edit: Edit): Edit {
    match edit
    case Minus(p, v) => Minus(prefix + p, v)
    case Plus(p, v) => Plus(prefix + p, v)
  }

  /** A line is printed for a path below the prefix exactly when it says what is the case there. */
  lemma {:induction false} DiffSaysWhatIs(prefix: seq<string>, default: Json, effective: Json, edit: Edit)
    ensures Absolute(prefix, edit) in Diff(prefix, default, effective) <==> Says(default, effective, edit.path, edit)
    decreases default, 1, 0
  {
    if default.Object? && effective.Object? {
      var keys := SortedKeys(default.fields.Keys + effective.fields.Keys);
      KeysSayWhatIs(prefix, default, effective, keys, edit);
      OnlyBelowKeys(default, effective, keys, edit.path);
    } else {
      AtRoot(default, effective, edit.path);
      LeafLines(prefix, default, effective, edit);
    }
  }

  /** Two objects differ only below a key of one of them. */
  lemma OnlyBelowKeys(default: Json, effective: Json, keys: seq<string>, path: seq<string>)
    requires default.Object? && effective.Object?
    requires forall k :: k in keys <==> k in default.fields || k in effective.fields
    ensures DiffersAt(default, effective, path) ==> path != [] && path[0] in keys
  {
    if path != [] && path[0] !in keys {
      assert path == [path[0]] + path[1..];
      OnlyAtKey(default, effective, path[0], path[1..]);
    }
  }

  lemma AtRoot(default: Json, effective: Json, path: seq<string>)
    requires !(default.Object? && effective.Object?)
    ensures DiffersAt(default, effective, path) <==> path == [] && default != effective
  {
    if path != [] {
      assert path[..0] == [];
      assert Get(Some(default), path[..0]) == Some(default) && Get(Some(effective), path[..0]) == Some(effective);
    }
  }

  lemma LeafLines(prefix: seq<string>, default: Json, effective: Json, edit: Edit)
    requires !(default.Object? && effective.Object?)
    ensures Absolute(prefix, edit) in Diff(prefix, default, effective)
            <==> edit.path == [] && default != effective
                 && edit.value == if edit.Minus? then default else effective
  {
    assert |prefix + edit.path| == |prefix| + |edit.path|;
    if edit.path == [] {
      assert prefix + edit.path == prefix;
    }
  }

  lemma {:induction false} KeysSayWhatIs(prefix: seq<string>, default: Json, effective: Json, keys: seq<string>,
                                         edit: Edit)
    requires default.Object? && effective.Object?
    ensures Absolute(prefix, edit) in DiffKeys(prefix, default, effective, keys) <==>
            edit.path != [] && edit.path[0] in keys && Says(default, effective, edit.path, edit)
    decreases default, 0, |keys|
  {
    if keys != [] {
      KeySaysWhatIs(prefix, default, effective, keys[0], edit);
      KeysSayWhatIs(prefix, default, effective, keys[1..], edit);
      assert edit.path != [] ==> (edit.path[0] in keys <==> edit.path[0] == keys[0] || edit.path[0] in keys[1..]);
    }
  }

  lemma {:induction false} KeySaysWhatIs(prefix: seq<string>, default: Json, effective: Json, key: string, edit: Edit)
    requires default.Object? && effective.Object?
    ensures Absolute(prefix, edit) in DiffKey(prefix, default, effective, key) <==>
            edit.path != [] && edit.path[0] == key && Says(default, effective, edit.path, edit)
    decreases default, 0, 0
  {
    var path := edit.path;
    if key in default.fields && key in effective.fields {
      if default.fields[key] != effective.fields[key] {
        SharedKeySaysWhatIs(prefix, default, effective, key, edit);
      } else if path != [] && path[0] == key {
        assert path == [key] + path[1..];
        BelowKey(default, effective, key, path[1..]);
      }
    } else {
      LoneKeySaysWhatIs(prefix, default, effective, key, edit);
    }
  }

  lemma {:induction false} SharedKeySaysWhatIs(prefix: seq<string>, default: Json, effective: Json, key: string,
                                               edit: Edit)
    requires default.Object? && effective.Object? && key in default.fields && key in effective.fields
    ensures Absolute(prefix, edit) in Diff(prefix + [key], default.fields[key], effective.fields[key]) <==>
            edit.path != [] && edit.path[0] == key && Says(default, effective, edit.path, edit)
    decreases default.fields[key], 2, 0
  {
    var path, below, d, e := edit.path, prefix + [key], default.fields[key], effective.fields[key];
    if path != [] && path[0] == key {
      var rest := Relative([key], edit);
      assert path == [key] + path[1..] && prefix + path == below + path[1..];
      assert Absolute(prefix, edit) == Absolute(below, rest);
      DiffSaysWhatIs(below, d, e, rest);
      BelowKey(default, effective, key, path[1..]);
    } else {
      DiffStaysBelow(below, d, e);
      assert !(below <= prefix + path) by {
        assert path != [] ==> (prefix + path)[|prefix|] == path[0];
      }
    }
  }

  lemma LoneKeySaysWhatIs(prefix: seq<string>, default: Json, effective: Json, key: string, edit: Edit)
    requires default.Object? && effective.Object? && (key !in default.fields || key !in effective.fields)
    ensures Absolute(prefix, edit) in DiffKey(prefix, default, effective, key) <==>
            edit.path != [] && edit.path[0] == key && Says(default, effective, edit.path, edit)
  {
    var path := edit.path;
    if path != [] && path[0] == key {
      assert path == [key] + path[1..];
      OnlyAtKey(default, effective, key, path[1..]);
      if path[1..] == [] {
        assert path == [key];
        assert Get(Some(default), path) == Field(default.fields, key);
        assert Get(Some(effective), path) == Field(effective.fields, key);
      } else {
        assert |prefix + path| > |prefix + [key]|;
      }
    } else {
      assert prefix + path != prefix + [key] by {
        assert path != [] ==> (prefix + path)[|prefix|] == path[0];
      }
    }
  }

  /** Every line's path starts with the prefix. */
  ghost predicate Below(prefix: seq<string>, edits: seq<Edit>) {
    forall k :: 0 <= k < |edits| ==> prefix <= edits[k].path
  }

  lemma {:induction false} DiffStaysBelow(prefix: seq<string>, default: Json, effective: Json)
    ensures Below(prefix, Diff(prefix, default, effective))
    decreases default, 1, 0
  {
    if default.Object? && effective.Object? {
      var keys := SortedKeys(default.fields.Keys + effective.fields.Keys);
      KeysStayBelow(prefix, default, effective, keys);
      var edits := Diff(prefix, default, effective);
      forall k | 0 <= k < |edits|
        ensures prefix <= edits[k].path
      {
        assert edits[k] in edits && GoesBelow(prefix, keys, edits[k]);
      }
    }
  }

  /** The path goes on from the prefix with one of the keys. */
  ghost predicate GoesBelow(prefix: seq<string>, keys: seq<string>, edit: Edit) {
    prefix <= edit.path && |edit.path| > |prefix| && edit.path[|prefix|] in keys
  }

  lemma {:induction false} KeysStayBelow(prefix: seq<string>, default: Json, effective: Json, keys: seq<string>)
    requires default.Object? && effective.Object?
    ensures forall edit :: edit in DiffKeys(prefix, default, effective, keys) ==> GoesBelow(prefix, keys, edit)
    decreases default, 0, |keys|
  {
    if keys != [] {
      var first := DiffKey(prefix, default, effective, keys[0]);
      KeyStaysBelow(prefix, default, effective, keys[0]);
      KeysStayBelow(prefix, default, effective, keys[1..]);
      forall edit | edit in first
        ensures GoesBelow(prefix, keys, edit)
      {
        var k :| 0 <= k < |first| && first[k] == edit;
        assert prefix + [keys[0]] <= edit.path;
        assert edit.path[|prefix|] == (prefix + [keys[0]])[|prefix|];
        assert prefix == edit.path[..|prefix|];
      }
    }
  }

  lemma {:induction false} KeyStaysBelow(prefix: seq<string>, default: Json, effective: Json, key: string)
    requires default.Object? && effective.Object?
    ensures Below(prefix + [key], DiffKey(prefix, default, effective, key))
    decreases default, 0, 0
  {
    if key in default.fields && key in effective.fields {
      DiffStaysBelow(prefix + [key], default.fields[key], effective.fields[key]);
    }
  }

  /** What the diff prints: a line for a path and value exactly when the two values differ there, are not
      both objects there but are above it, and the value is the default's for a removed line, the effective
      one's for an added line. */
  lemma DiffIsExact(default: Json, effective: Json, edit: Edit)
    ensures edit in Diff([], default, effective) <==> Says(default, effective, edit.path, edit)
  {
    DiffSaysWhatIs([], default, effective, edit);
    assert [] + edit.path == edit.path;
  }

  // ---------- the order of the lines ----------

  /** The paths part at some key, where the first has the smaller. */
  ghost predicate PathBefore(p: seq<string>, q: seq<string>) {
    exists n :: PartsAt(p, q, n)
  }

  ghost predicate PartsAt(p: seq<string>, q: seq<string>, n: nat) {
    n < |p| && n < |q| && p[..n] == q[..n] && p[n] != q[n] && Leq(p[n], q[n])
  }

  /** Lines about different paths come in path order; two lines about one path are neighbours, the removed
      value first. */
  ghost predicate InOrder(edits: seq<Edit>) {
    forall i, j :: 0 <= i < j < |edits| ==>
      PathBefore(edits[i].path, edits[j].path)
      || (j == i + 1 && edits[i].path == edits[j].path && edits[i].Minus? && edits[j].Plus?)
  }

  lemma {:induction false} DiffInOrder(prefix: seq<string>, default: Json, effective: Json)
    ensures InOrder(Diff(prefix, default, effective))
    decreases default, 1, 0
  {
    if default.Object? && effective.Object? {
      KeysInOrder(prefix, default, effective, SortedKeys(default.fields.Keys + effective.fields.Keys));
    }
  }

  lemma {:induction false} KeysInOrder(prefix: seq<string>, default: Json, effective: Json, keys: seq<string>)
    requires default.Object? && effective.Object?
    requires forall i, j :: 0 <= i < j < |keys| ==> keys[i] != keys[j] && Leq(keys[i], keys[j])
    ensures InOrder(DiffKeys(prefix, default, effective, keys))
    decreases default, 0, |keys|
  {
    if keys != [] {
      var key, rest := keys[0], keys[1..];
      var first, later := DiffKey(prefix, default, effective, key), DiffKeys(prefix, default, effective, rest);
      KeysInOrder(prefix, default, effective, rest);
      if key in default.fields && key in effective.fields {
        DiffInOrder(prefix + [key], default.fields[key], effective.fields[key]);
      }
      KeyStaysBelow(prefix, default, effective, key);
      KeysStayBelow(prefix, default, effective, rest);
      forall a, b | 0 <= a < |first| && 0 <= b < |later|
        ensures PathBefore(first[a].path, later[b].path)
      {
        assert later[b] in later && GoesBelow(prefix, rest, later[b]);
        KeysPart(prefix, key, later[b].path[|prefix|], first[a].path, later[b].path);
      }
      JoinInOrder(first, later);
    }
  }

  lemma KeysPart(prefix: seq<string>, a: string, b: string, p: seq<string>, q: seq<string>)
    requires a != b && Leq(a, b)
    requires prefix + [a] <= p && prefix <= q && |q| > |prefix| && q[|prefix|] == b
    ensures PathBefore(p, q)
  {
    assert p[..|prefix|] == prefix == q[..|prefix|] && p[|prefix|] == (prefix + [a])[|prefix|] == a;
    assert PartsAt(p, q, |prefix|);
  }

  lemma JoinInOrder(first: seq<Edit>, later: seq<Edit>)
    requires InOrder(first) && InOrder(later)
    requires forall a, b :: 0 <= a < |first| && 0 <= b < |later| ==> PathBefore(first[a].path, later[b].path)
    ensures InOrder(first + later)
  {
    var all, n := first + later, |first|;
    forall i, j | 0 <= i < j < |all|
      ensures PathBefore(all[i].path, all[j].path)
              || (j == i + 1 && all[i].path == all[j].path && all[i].Minus? && all[j].Plus?)
    {
      assert i < n ==> all[i] == first[i];
      assert j < n ==> all[j] == first[j];
      assert i >= n ==> all[i] == later[i - n];
      assert j >= n ==> all[j] == later[j - n];
    }
  }

  // ---------- printed paths ----------

  /** The text printed for a path: keys joined by dots, where an empty text so far counts as none. */
  function PathText(path: seq<string>): string {
    if path == [] then ""
    else
      var parent := PathText(path[..|path| - 1]);
      if parent == "" then path[|path| - 1] else parent + "." + path[|path| - 1]
  }

  /** The reconstruction needs the key lists: different paths can print alike, when a key holds a dot
      or is empty. */
  lemma PrintedPathsCollide()
    ensures PathText(["a.b"]) == PathText(["a", "b"])
    ensures PathText(["", "a"]) == PathText(["a"])
  {
    assert ["a", "b"][..1] == ["a"] && ["a.b"][..0] == [] && ["a"][..0] == [];
    assert ["", "a"][..1] == [""] && [""][..0] == [];
    assert "a" + "." + "b" == "a.b";
  }

  function DropEmpty(path: seq<string>): seq<string> {
    if path != [] && path[0] == "" then DropEmpty(path[1..]) else path
  }

  /** All keys split at their dots. */
  function Pieces(path: seq<string>): seq<string> {
    if path == [] then [] else Pieces(path[..|path| - 1]) + SplitDots(path[|path| - 1])
  }

  lemma {:induction false} DropEmptyOfLonger(path: seq<string>, key: string)
    ensures DropEmpty(path + [key]) ==
            if DropEmpty(path) != [] then DropEmpty(path) + [key] else if key == "" then [] else [key]
  {
    if path != [] {
      assert (path + [key])[1..] == path[1..] + [key];
      if path[0] == "" {
        DropEmptyOfLonger(path[1..], key);
      }
    } else {
      assert path + [key] == [key];
    }
  }

  /** The printed text is empty when there is no key but empty ones; else its pieces are the path's,
      leading empty keys aside. */
  lemma {:induction false} TextHasPieces(path: seq<string>)
    ensures var d := DropEmpty(path);
            if d == [] then PathText(path) == "" else PathText(path) != "" && SplitDots(PathText(path)) == Pieces(d)
    decreases |path|
  {
    if path != [] {
      var front, key := path[..|path| - 1], path[|path| - 1];
      TextHasPieces(front);
      DropEmptyOfLonger(front, key);
      assert path == front + [key];
      var d := DropEmpty(front);
      if d != [] {
        SplitOfJoined(PathText(front), key);
        assert (d + [key])[..|d + [key]| - 1] == d;
      } else {
        assert [key][..0] == [];
      }
    }
  }

  /** Two paths print alike exactly when they agree after dropping leading empty keys and splitting the
      rest at dots. */
  lemma PrintAlikeIff(p: seq<string>, q: seq<string>)
    ensures PathText(p) == PathText(q) <==> Pieces(DropEmpty(p)) == Pieces(DropEmpty(q))
  {
    TextHasPieces(p);
    TextHasPieces(q);
    SplitLosesNothing(PathText(p));
    SplitLosesNothing(PathText(q));
  }

  ghost predicate NonEmptyPlain(path: seq<string>) {
    forall k :: 0 <= k < |path| ==> path[k] != "" && '.' !in path[k]
  }

  lemma {:induction false} PlainPieces(path: seq<string>)
    requires NonEmptyPlain(path)
    ensures Pieces(path) == path
    decreases |path|
  {
    if path != [] {
      var front, key := path[..|path| - 1], path[|path| - 1];
      PlainPieces(front);
      SplitOfPlain(key);
      assert path == front + [key];
    }
  }

  /** Printed paths are faithful when no key is empty or holds a dot. */
  lemma PrintedPathsAreFaithful(p: seq<string>, q: seq<string>)
    requires NonEmptyPlain(p) && NonEmptyPlain(q) && PathText(p) == PathText(q)
    ensures p == q
  {
    PrintAlikeIff(p, q);
    PlainPieces(p);
    PlainPieces(q);
  }

  // ---------- printed lines ----------

  /** A line as the user sees it. */
  datatype Line = Line(added: bool, path: string, value: Json)

  function Printed(edit: Edit): Line {
    Line(edit.Plus?, PathText(edit.path), edit.value)
  }

  function PrintedLines(edits: seq<Edit>): (lines: seq<Line>)
    ensures |lines| == |edits| && forall k :: 0 <= k < |edits| ==> lines[k] == Printed(edits[k])
  {
    seq(|edits|, k requires 0 <= k < |edits| => Printed(edits[k]))
  }

  /** Two diffs print alike exactly when they agree line by line in sign and value, and in the pieces of
      their paths. */
  lemma DiffsPrintAlikeIff(a: seq<Edit>, b: seq<Edit>)
    ensures PrintedLines(a) == PrintedLines(b) <==>
            && |a| == |b|
            && forall k :: 0 <= k < |a| ==>
                 a[k].Plus? == b[k].Plus? && a[k].value == b[k].value
                 && Pieces(DropEmpty(a[k].path)) == Pieces(DropEmpty(b[k].path))
  {
    assert |PrintedLines(a)| == |a| && |PrintedLines(b)| == |b|;
    if |a| == |b| {
      forall k | 0 <= k < |a|
        ensures PrintedLines(a)[k] == PrintedLines(b)[k] <==>
                && a[k].Plus? == b[k].Plus? && a[k].value == b[k].value
                && Pieces(DropEmpty(a[k].path)) == Pieces(DropEmpty(b[k].path))
      {
        PrintAlikeIff(a[k].path, b[k].path);
      }
    }
  }

  lemma SortedOne(key: string)
    ensures SortedKeys({key}) == [key]
  {
    assert SortedKeys({key})[0] == key;
    assert {key} - {key} == {};
  }

  lemma KeysOfOne(prefix: seq<string>, default: Json, effective: Json, key: string)
    requires default.Object? && effective.Object? && default.fields.Keys + effective.fields.Keys == {key}
    ensures Diff(prefix, default, effective) == DiffKey(prefix, default, effective, key)
  {
    SortedOne(key);
    assert DiffKeys(prefix, default, effective, [key][1..]) == [];
  }

  /** With `{"a": {}}` the default, the values `{"a": {"b": null}}` and `{"a": {}, "a.b": null}` differ, and
      print the same line. */
  lemma PrintedDiffsCollide()
    ensures var none := Object(map[]);
            var default := Object(map["a" := none]);
            var nested, dotted := Object(map["a" := Object(map["b" := Null])]), Object(map["a" := none, "a.b" := Null]);
            && nested != dotted
            && PrintedLines(Diff([], default, nested)) == [Line(true, "a.b", Null)]
            && PrintedLines(Diff([], default, dotted)) == [Line(true, "a.b", Null)]
  {
    var none := Object(map[]);
    var default := Object(map["a" := none]);
    var leaf := Object(map["b" := Null]);
    var nested, dotted := Object(map["a" := leaf]), Object(map["a" := none, "a.b" := Null]);
    NestedDiff(none, default, leaf, nested);
    DottedDiff(none, default, dotted);
    PrintedPathsCollide();
    assert "b" in leaf.fields && "a.b" in dotted.fields && "a.b" !in nested.fields;
  }

  lemma NestedDiff(none: Json, default: Json, leaf: Json, nested: Json)
    requires none == Object(map[]) && default == Object(map["a" := none])
    requires leaf == Object(map["b" := Null]) && nested == Object(map["a" := leaf])
    ensures Diff([], default, nested) == [Plus(["a", "b"], Null)]
  {
    assert default.fields.Keys + nested.fields.Keys == {"a"};
    assert none.fields.Keys + leaf.fields.Keys == {"b"};
    assert "b" in leaf.fields && "b" !in none.fields;
    KeysOfOne([], default, nested, "a");
    KeysOfOne(["a"], none, leaf, "b");
    assert [] + ["a"] == ["a"] && ["a"] + ["b"] == ["a", "b"];
  }

  lemma DottedDiff(none: Json, default: Json, dotted: Json)
    requires none == Object(map[]) && default == Object(map["a" := none])
    requires dotted == Object(map["a" := none, "a.b" := Null])
    ensures Diff([], default, dotted) == [Plus(["a.b"], Null)]
  {
    var keys := SortedKeys(default.fields.Keys + dotted.fields.Keys);
    var prefix: seq<string> := [];
    assert default.fields.Keys + dotted.fields.Keys == {"a", "a.b"};
    assert "a" in keys && "a.b" in keys && |"a"| != |"a.b"|;
    assert DiffKey(prefix, default, dotted, "a") == [];
    assert DiffKey(prefix, default, dotted, "a.b") == [Plus(["a.b"], Null)] by {
      assert prefix + ["a.b"] == ["a.b"];
    }
    OnlyKeySpeaks(prefix, default, dotted, keys, "a.b");
  }

  /** When one key only has something to print, that is the diff. */
  lemma {:induction false} OnlyKeySpeaks(prefix: seq<string>, default: Json, effective: Json, keys: seq<string>,
                                         key: string)
    requires default.Object? && effective.Object?
    requires forall i, j :: 0 <= i < j < |keys| ==> keys[i] != keys[j]
    requires forall k :: k in keys && k != key ==> DiffKey(prefix, default, effective, k) == []
    ensures DiffKeys(prefix, default, effective, keys)
            == if key in keys then DiffKey(prefix, default, effective, key) else []
    decreases |keys|
  {
    if keys != [] {
      OnlyKeySpeaks(prefix, default, effective, keys[1..], key);
      assert key in keys <==> key == keys[0] || key in keys[1..];
      assert key == keys[0] ==> key !in keys[1..];
    }
  }

  /** No key at any depth of nested objects is empty or holds a dot. */
  ghost predicate PlainKeys(value: Json) {
    value.Object? ==>
      forall key :: key in value.fields ==> key != "" && '.' !in key && PlainKeys(value.fields[key])
  }

  ghost predicate PlainPaths(edits: seq<Edit>) {
    forall k :: 0 <= k < |edits| ==> NonEmptyPlain(edits[k].path)
  }

  lemma {:induction false} DiffPathsArePlain(prefix: seq<string>, default: Json, effective: Json)
    requires NonEmptyPlain(prefix) && PlainKeys(default) && PlainKeys(effective)
    ensures PlainPaths(Diff(prefix, default, effective))
    decreases default, 1, 0
  {
    if default.Object? && effective.Object? {
      KeyPathsArePlain(prefix, default, effective, SortedKeys(default.fields.Keys + effective.fields.Keys));
    }
  }

  lemma {:induction false} KeyPathsArePlain(prefix: seq<string>, default: Json, effective: Json, keys: seq<string>)
    requires default.Object? && effective.Object?
    requires NonEmptyPlain(prefix) && PlainKeys(default) && PlainKeys(effective)
    ensures PlainPaths(DiffKeys(prefix, default, effective, keys))
    decreases default, 0, |keys|
  {
    if keys != [] {
      var key := keys[0];
      KeyPathsArePlain(prefix, default, effective, keys[1..]);
      if key in default.fields && key in effective.fields {
        DiffPathsArePlain(prefix + [key], default.fields[key], effective.fields[key]);
      }
      assert PlainPaths(DiffKey(prefix, default, effective, key));
    }
  }

  lemma LinesDetermineEdits(a: seq<Edit>, b: seq<Edit>)
    requires PlainPaths(a) && PlainPaths(b) && PrintedLines(a) == PrintedLines(b)
    ensures a == b
  {
    assert |a| == |PrintedLines(a)| == |b|;
    forall k | 0 <= k < |a|
      ensures a[k] == b[k]
    {
      assert Printed(a[k]) == PrintedLines(a)[k] == PrintedLines(b)[k] == Printed(b[k]);
      PrintedPathsAreFaithful(a[k].path, b[k].path);
    }
  }

  /** What the user sees is enough when no key is empty or dotted: given the default value, two effective
      values print the same lines exactly when they are equal. */
  lemma PrintedDiffIsFaithful(default: Json, a: Json, b: Json)
    requires PlainKeys(default) && PlainKeys(a) && PlainKeys(b)
    ensures PrintedLines(Diff([], default, a)) == PrintedLines(Diff([], default, b)) <==> a == b
  {
    DiffPathsArePlain([], default, a);
    DiffPathsArePlain([], default, b);
    DiffReconstructs(default, a);
    DiffReconstructs(default, b);
    if PrintedLines(Diff([], default, a)) == PrintedLines(Diff([], default, b)) {
      LinesDetermineEdits(Diff([], default, a), Diff([], default, b));
    }
  }
}
