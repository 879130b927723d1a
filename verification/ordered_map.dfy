/** An insertion-ordered map, as a JavaScript `Map` keeps it: a sequence of
    (key, value) entries. Setting a present key replaces its value where it
    stands; setting a new key appends it. */
module OrderedMap {
  import opened Wrappers

  // Keys are strings, as in the one map this models.

  function Keys<V>(m: seq<(string, V)>): (ks: seq<string>)
    ensures |ks| == |m|
    ensures forall i :: 0 <= i < |m| ==> ks[i] == m[i].0
  {
    seq(|m|, i requires 0 <= i < |m| => m[i].0)
  }

  function Values<V>(m: seq<(string, V)>): (vs: seq<V>)
    ensures |vs| == |m|
    ensures forall i :: 0 <= i < |m| ==> vs[i] == m[i].1
  {
    seq(|m|, i requires 0 <= i < |m| => m[i].1)
  }

  predicate Unique<T(==)>(s: seq<T>) {
    forall i, j :: 0 <= i < j < |s| ==> s[i] != s[j]
  }

  /** No key occurs in two entries. */
  predicate UniqueKeys<V>(m: seq<(string, V)>) {
    Unique(Keys(m))
  }

  // ---------------------------------------------------------------------------
  // Key order

  /** The key order after setting `k`: unchanged if present, else appended. */
  function AddKey(ks: seq<string>, k: string): (r: seq<string>)
    ensures k in r && ks <= r
    ensures forall x :: x in r <==> x in ks || x == k
    ensures Unique(ks) ==> Unique(r)
  {
    if k in ks then ks else ks + [k]
  }

  /** The key order after setting each of `ns` in turn. */
  function AddKeys(ks: seq<string>, ns: seq<string>): (r: seq<string>)
    ensures ks <= r
    ensures forall x :: x in r <==> x in ks || x in ns
    ensures Unique(ks) ==> Unique(r)
    ensures |r| <= |ks| + |ns|
  {
    if ns == [] then ks else AddKey(AddKeys(ks, ns[..|ns| - 1]), ns[|ns| - 1])
  }

  /** Setting keys that are all present already leaves the order alone. */
  lemma {:induction false} AddKeysPresent(ks: seq<string>, ns: seq<string>)
    requires forall x :: x in ns ==> x in ks
    ensures AddKeys(ks, ns) == ks
  {
    if ns != [] {
      AddKeysPresent(ks, ns[..|ns| - 1]);
    }
  }

  /** Setting fresh, distinct keys appends them in order. */
  lemma {:induction false} AddKeysFresh(ks: seq<string>, ns: seq<string>)
    requires Unique(ns)
    requires forall x :: x in ns ==> x !in ks
    ensures AddKeys(ks, ns) == ks + ns
  {
    if ns != [] {
      var init := ns[..|ns| - 1];
      AddKeysFresh(ks, init);
      assert ns[|ns| - 1] !in init;
      assert ks + init + [ns[|ns| - 1]] == ks + ns;
    }
  }

  /** When the starting keys are distinct, the keys past them are the new ones. */
  lemma AddKeysTail(ks: seq<string>, ns: seq<string>)
    requires Unique(ks)
    ensures var r := AddKeys(ks, ns);
            forall i :: |ks| <= i < |r| ==> r[i] !in ks && r[i] in ns
  {
    var r := AddKeys(ks, ns);
    assert Unique(r) && ks <= r;
  }

  /** Distinct keys, disjoint from the starting ones, are appended as they are. */
  lemma AddKeysDisjoint(ks: seq<string>, ns: seq<string>)
    requires Unique(ks) && Unique(ns)
    requires forall x :: x in ns ==> x !in ks
    ensures AddKeys([], ks + ns) == ks + ns
  {
    UniqueConcat(ks, ns);
    AddKeysFresh([], ks + ns);
  }

  lemma UniqueConcat(a: seq<string>, b: seq<string>)
    requires Unique(a) && Unique(b)
    requires forall x :: x in b ==> x !in a
    ensures Unique(a + b)
  {
    var c := a + b;
    forall i, j | 0 <= i < j < |c| ensures c[i] != c[j] {
      if j < |a| {
        assert c[i] == a[i] && c[j] == a[j];
      } else if i >= |a| {
        assert c[i] == b[i - |a|] && c[j] == b[j - |a|];
      } else {
        assert c[i] == a[i] && c[j] == b[j - |a|];
        assert a[i] in a && b[j - |a|] in b;
      }
    }
  }

  lemma {:induction false} AddKeysConcat(ks: seq<string>, ns: seq<string>, ms: seq<string>)
    ensures AddKeys(ks, ns + ms) == AddKeys(AddKeys(ks, ns), ms)
  {
    if ms != [] {
      assert (ns + ms)[..|ns + ms| - 1] == ns + ms[..|ms| - 1];
      assert (ns + ms)[|ns + ms| - 1] == ms[|ms| - 1];
      AddKeysConcat(ks, ns, ms[..|ms| - 1]);
    } else {
      assert ns + ms == ns;
    }
  }

  // ---------------------------------------------------------------------------
  // Lookup and update

  /** The position of the first occurrence of `k`. */
  function IndexOf(ks: seq<string>, k: string): (i: nat)
    requires k in ks
    ensures i < |ks| && ks[i] == k
    ensures forall j :: 0 <= j < i ==> ks[j] != k
  {
    if ks[0] == k then 0 else 1 + IndexOf(ks[1..], k)
  }

  /** The first occurrence is the only position before which `k` is absent. */
  lemma IndexOfIs(ks: seq<string>, k: string, i: nat)
    requires i < |ks| && ks[i] == k
    requires forall j :: 0 <= j < i ==> ks[j] != k
    ensures IndexOf(ks, k) == i
  {
  }

  /** `map.get(k)`: the value under the first entry with key `k`. */
  function Get<V>(m: seq<(string, V)>, k: string): (r: Option<V>)
    ensures r.None? <==> k !in Keys(m)
    ensures r.Some? ==> (k, r.value) in m
  {
    if k in Keys(m) then Some(m[IndexOf(Keys(m), k)].1) else None
  }

  /** In a map without repeated keys, each entry is what its key looks up. */
  lemma GetAt<V>(m: seq<(string, V)>, i: nat)
    requires UniqueKeys(m) && i < |m|
    ensures Get(m, m[i].0) == Some(m[i].1)
  {
    IndexOfIs(Keys(m), m[i].0, i);
  }

  /** `map.set(k, v)`: replace the value in place, or append a new entry. */
  function Set<V>(m: seq<(string, V)>, k: string, v: V): (r: seq<(string, V)>)
    ensures Keys(r) == AddKey(Keys(m), k)
    ensures forall p :: p in r ==> p in m || p == (k, v)
  {
    if k in Keys(m) then
      var r := m[IndexOf(Keys(m), k) := (k, v)];
      assert Keys(r) == Keys(m);
      r
    else
      assert Keys(m + [(k, v)]) == Keys(m) + [k];
      m + [(k, v)]
  }

  /** Setting a key held at position `i` of a map without repeated keys
      changes the value there and nothing else. */
  lemma SetPresent<V>(m: seq<(string, V)>, i: nat, v: V)
    requires UniqueKeys(m) && i < |m|
    ensures Values(Set(m, m[i].0, v)) == Values(m)[i := v]
  {
    IndexOfIs(Keys(m), m[i].0, i);
    assert Values(m[i := (m[i].0, v)]) == Values(m)[i := v];
  }

  /** Setting a new key appends its value. */
  lemma SetAbsent<V>(m: seq<(string, V)>, k: string, v: V)
    requires k !in Keys(m)
    ensures Values(Set(m, k, v)) == Values(m) + [v]
  {
    assert Values(m + [(k, v)]) == Values(m) + [v];
  }

  /** The value of the last entry with key `k`. */
  function LastValue<V>(kvs: seq<(string, V)>, k: string): (v: V)
    requires k in Keys(kvs)
    ensures (k, v) in kvs
  {
    var n := |kvs| - 1;
    if kvs[n].0 == k then kvs[n].1
    else
      assert Keys(kvs) == Keys(kvs[..n]) + [kvs[n].0];
      LastValue(kvs[..n], k)
  }

  /** Setting each entry of `kvs` in turn, as `kvs.forEach(([k, v]) => map.set(k, v))`. */
  function SetAll<V>(m: seq<(string, V)>, kvs: seq<(string, V)>): (r: seq<(string, V)>)
    ensures Keys(r) == AddKeys(Keys(m), Keys(kvs))
    ensures forall p :: p in r ==> p in m || p in kvs
  {
    if kvs == [] then m
    else
      var n := |kvs| - 1;
      var r := SetAll(m, kvs[..n]);
      assert Keys(kvs)[..n] == Keys(kvs[..n]);
      Set(r, kvs[n].0, kvs[n].1)
  }

  /** After `set(k, v)`, `k` looks up `v` and every other key what it did before. */
  lemma SetGet<V>(m: seq<(string, V)>, k: string, v: V, x: string)
    ensures Get(Set(m, k, v), x) == if x == k then Some(v) else Get(m, x)
  {
    var r := Set(m, k, v);
    if x in Keys(m) {
      var j := IndexOf(Keys(m), x);
      IndexOfIs(Keys(r), x, j);
    } else if x == k {
      IndexOfIs(Keys(r), k, |m|);
    }
  }

  /** After setting every entry of `kvs`, a key of `kvs` looks up its last value
      there, and any other key what it did before. */
  lemma {:induction false} SetAllGet<V>(m: seq<(string, V)>, kvs: seq<(string, V)>, x: string)
    ensures Get(SetAll(m, kvs), x) == if x in Keys(kvs) then Some(LastValue(kvs, x)) else Get(m, x)
  {
    if kvs != [] {
      var n := |kvs| - 1;
      assert Keys(kvs) == Keys(kvs[..n]) + [kvs[n].0];
      SetAllGet(m, kvs[..n], x);
      SetGet(SetAll(m, kvs[..n]), kvs[n].0, kvs[n].1, x);
    }
  }

  // ---------------------------------------------------------------------------
  // Properties

  /** Two maps without repeated keys are equal when they agree on key order and
      on every lookup. */
  lemma Extensionality<V>(a: seq<(string, V)>, b: seq<(string, V)>)
    requires UniqueKeys(a) && UniqueKeys(b)
    requires Keys(a) == Keys(b)
    requires forall x :: Get(a, x) == Get(b, x)
    ensures a == b
  {
    forall i | 0 <= i < |a| ensures a[i] == b[i] {
      GetAt(a, i);
      GetAt(b, i);
    }
  }

  /** In a map without repeated keys, the last value under a key is its only one. */
  lemma LastValueUnique<V>(m: seq<(string, V)>, k: string)
    requires UniqueKeys(m) && k in Keys(m)
    ensures Get(m, k) == Some(LastValue(m, k))
  {
    var i :| 0 <= i < |m| && m[i].0 == k;
    GetAt(m, i);
    var j :| 0 <= j < |m| && m[j] == (k, LastValue(m, k));
    assert i == j;
  }

  /** Replaying a map without repeated keys into an empty one rebuilds it. */
  lemma Replay<V>(m: seq<(string, V)>)
    requires UniqueKeys(m)
    ensures SetAll([], m) == m
  {
    var r := SetAll([], m);
    AddKeysFresh([], Keys(m));
    assert Keys(r) == Keys(m);
    forall x ensures Get(r, x) == Get(m, x) {
      SetAllGet([], m, x);
      if x in Keys(m) {
        LastValueUnique(m, x);
      }
    }
    Extensionality(r, m);
  }

  /** Setting the same entries twice has the effect of setting them once. */
  lemma SetAllIdempotent<V>(m: seq<(string, V)>, kvs: seq<(string, V)>)
    requires UniqueKeys(m)
    ensures SetAll(SetAll(m, kvs), kvs) == SetAll(m, kvs)
  {
    var once := SetAll(m, kvs);
    var twice := SetAll(once, kvs);
    AddKeysPresent(Keys(once), Keys(kvs));
    forall x ensures Get(twice, x) == Get(once, x) {
      SetAllGet(once, kvs, x);
      SetAllGet(m, kvs, x);
    }
    Extensionality(twice, once);
  }
}
