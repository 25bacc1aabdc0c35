/** Shared vocabulary: optional values and the fixed-width integers the pool uses. */
module Basics {
  datatype Option<+T> = None | Some(value: T)

  const U32_LIMIT: nat := 0x1_0000_0000
  const U64_LIMIT: nat := 0x1_0000_0000_0000_0000
  const U128_LIMIT: nat := 0x1_0000_0000_0000_0000_0000_0000_0000_0000

  type u32 = n: nat | n < U32_LIMIT
  type u64 = n: nat | n < U64_LIMIT
  type byte = n: nat | n < 256

  /** A path as its components; the root is the empty path. */
  type Path = seq<string>

  function Min(a: int, b: int): int {
    if a <= b then a else b
  }

  /** How many of 1..n satisfy `p`. */
  function CountUpTo(p: nat -> bool, n: nat): (c: nat)
    ensures c <= n
  {
    if n == 0 then 0 else CountUpTo(p, n - 1) + if p(n) then 1 else 0
  }

  lemma {:induction false} NoneCounted(p: nat -> bool, n: nat)
    ensures CountUpTo(p, n) == 0 <==> forall i :: 1 <= i <= n ==> !p(i)
  {
    if n > 0 {
      NoneCounted(p, n - 1);
    }
  }

  /** The sum of `f` over 1..n. */
  function SumUpTo(f: nat -> nat, n: nat): nat {
    if n == 0 then 0 else SumUpTo(f, n - 1) + f(n)
  }

  /** The sum of a map's values. */
  ghost function SumMap<K(!new)>(m: map<K, nat>): nat
    decreases |m|
  {
    if m == map[] then 0
    else
      var k :| k in m;
      m[k] + SumMap(m - {k})
  }

  lemma {:induction false} SumMapWithout<K(!new)>(m: map<K, nat>, k: K)
    requires k in m
    ensures SumMap(m) == m[k] + SumMap(m - {k})
    decreases |m|
  {
    var picked :| picked in m && SumMap(m) == m[picked] + SumMap(m - {picked});
    if picked != k {
      SumMapWithout(m - {picked}, k);
      SumMapWithout(m - {k}, picked);
      assert m - {picked} - {k} == m - {k} - {picked};
    }
  }

  lemma SumMapUpdate<K(!new)>(m: map<K, nat>, k: K, v: nat)
    requires k in m
    ensures SumMap(m[k := v]) + m[k] == SumMap(m) + v
  {
    SumMapWithout(m, k);
    SumMapWithout(m[k := v], k);
    assert m[k := v] - {k} == m - {k};
  }

  /** Adding up a map's values in any order. */
  method SumValues<K(==, !new)>(m: map<K, nat>) returns (total: nat)
    ensures total == SumMap(m)
  {
    total := 0;
    var left := m;
    while left != map[]
      invariant total + SumMap(left) == SumMap(m)
      decreases |left|
    {
      var k :| k in left;
      SumMapWithout(left, k);
      total := total + left[k];
      left := left - {k};
    }
  }
}
