/** Insertion-ordered string-keyed dictionaries, as Python's `dict` and
    tomlkit's tables and documents behave: `d[k]`, `d.get(k)`,
    `d.pop(k)` and `d[k] = v`. A dictionary is an association list; a key
    is looked up at its first occurrence. */
module Dicts {
  import opened Wrappers

  type Dict<V> = seq<(string, V)>

  /** The keys, in insertion order (Python `list(d)`). */
  function Keys<V>(d: Dict<V>): seq<string>
  {
    seq(|d|, i requires 0 <= i < |d| => d[i].0)
  }

  /** No key occurs twice. */
  predicate Distinct(ks: seq<string>)
  {
    forall i, j :: 0 <= i < j < |ks| ==> ks[i] != ks[j]
  }

  /** Position of the first `k` in `ks`, or `|ks|` when there is none. */
  function Find(ks: seq<string>, k: string): (i: nat)
    ensures i <= |ks|
    ensures i < |ks| ==> ks[i] == k
    ensures forall j :: 0 <= j < i ==> ks[j] != k
    ensures i == |ks| <==> k !in ks
  {
    if ks == [] then 0 else if ks[0] == k then 0 else 1 + Find(ks[1..], k)
  }

  /** `ks` with every occurrence of `k` left out, order kept. */
  function Without(ks: seq<string>, k: string): (r: seq<string>)
    ensures k !in r
    ensures forall x :: x != k ==> (x in r <==> x in ks)
  {
    if ks == [] then []
    else if ks[0] == k then Without(ks[1..], k)
    else [ks[0]] + Without(ks[1..], k)
  }

  /** Python `d.get(k)`. */
  function Get<V>(d: Dict<V>, k: string): (r: Option<V>)
    ensures r.Some? <==> k in Keys(d)
    ensures r.Some? ==> (k, r.value) in d
  {
    var i := Find(Keys(d), k);
    if i < |d| then Some(d[i].1) else None
  }

  /** Python `d.pop(k)`: the value and the dictionary without that entry;
      a `KeyError` when the key is absent. */
  function Pop<V>(d: Dict<V>, k: string): (r: Result<(V, Dict<V>)>)
    ensures r.Err? <==> k !in Keys(d)
    ensures r.Err? ==> r.error == KeyError(k)
    ensures r.Ok? ==> Get(d, k) == Some(r.value.0)
    ensures r.Ok? ==> var i := Find(Keys(d), k); r.value.1 == d[..i] + d[i + 1..]
    ensures r.Ok? ==> forall x :: x != k ==> Get(r.value.1, x) == Get(d, x)
    ensures r.Ok? && Distinct(Keys(d)) ==>
      Keys(r.value.1) == Without(Keys(d), k) && Distinct(Keys(r.value.1))
  {
    var i := Find(Keys(d), k);
    if i == |d| then Err(KeyError(k))
    else
      RemoveAt(d, i);
      Ok((d[i].1, d[..i] + d[i + 1..]))
  }

  /** Python `d[k] = v`: an existing key keeps its position and takes the
      new value; a new key is appended at the end. */
  function Set<V>(d: Dict<V>, k: string, v: V): (r: Dict<V>)
    ensures Get(r, k) == Some(v)
    ensures forall x :: x != k ==> Get(r, x) == Get(d, x)
    ensures k in Keys(d) ==> Keys(r) == Keys(d)
    ensures k !in Keys(d) ==> Keys(r) == Keys(d) + [k] && r == d + [(k, v)]
    ensures Distinct(Keys(d)) ==> Distinct(Keys(r))
  {
    var i := Find(Keys(d), k);
    if i < |d| then
      var r := d[i := (k, v)];
      assert Keys(r) == Keys(d);
      r
    else
      Append(d, k, v);
      d + [(k, v)]
  }

  /** With distinct keys, every entry is found under its own key. */
  lemma GetDistinct<V>(d: Dict<V>)
    ensures Distinct(Keys(d)) ==> forall i :: 0 <= i < |d| ==> Get(d, d[i].0) == Some(d[i].1)
  {
    forall i | 0 <= i < |d| && Distinct(Keys(d))
      ensures Get(d, d[i].0) == Some(d[i].1)
    {
      assert Keys(d)[i] == d[i].0;
      var j := Find(Keys(d), d[i].0);
      assert j == i;
    }
  }

  /** With distinct keys, an entry is what its key looks up. */
  lemma GetMember<V>(d: Dict<V>, k: string, v: V)
    requires Distinct(Keys(d)) && (k, v) in d
    ensures Get(d, k) == Some(v)
  {
    var i :| 0 <= i < |d| && d[i] == (k, v);
    GetDistinct(d);
  }

  /** Removing the entry at `i` leaves every other key's lookup alone. */
  lemma RemoveAt<V>(d: Dict<V>, i: nat)
    requires i < |d|
    ensures var r := d[..i] + d[i + 1..];
      && Keys(r) == Keys(d)[..i] + Keys(d)[i + 1..]
      && (forall x :: x != d[i].0 ==> Get(r, x) == Get(d, x))
      && (Distinct(Keys(d)) ==> Keys(r) == Without(Keys(d), d[i].0) && Distinct(Keys(r)))
  {
    KeysRemoveAt(d, i);
    GetRemoveAt(d, i);
    if Distinct(Keys(d)) {
      WithoutUnique(Keys(d), i);
    }
  }

  lemma KeysRemoveAt<V>(d: Dict<V>, i: nat)
    requires i < |d|
    ensures Keys(d[..i] + d[i + 1..]) == Keys(d)[..i] + Keys(d)[i + 1..]
  {
    var r := d[..i] + d[i + 1..];
    assert forall j :: 0 <= j < |r| ==> r[j] == if j < i then d[j] else d[j + 1];
  }

  lemma GetRemoveAt<V>(d: Dict<V>, i: nat)
    requires i < |d|
    ensures forall x :: x != d[i].0 ==> Get(d[..i] + d[i + 1..], x) == Get(d, x)
  {
    forall x | x != d[i].0
      ensures Get(d[..i] + d[i + 1..], x) == Get(d, x)
    {
      KeysRemoveAt(d, i);
      FindRemoveAt(Keys(d), i, x);
    }
  }

  /** Appending a new key leaves every other key's lookup alone. */
  lemma Append<V>(d: Dict<V>, k: string, v: V)
    ensures Keys(d + [(k, v)]) == Keys(d) + [k]
    ensures forall x :: x != k ==> Get(d + [(k, v)], x) == Get(d, x)
  {
    var r := d + [(k, v)];
    assert Keys(r) == Keys(d) + [k];
    forall x | x != k
      ensures Get(r, x) == Get(d, x)
    {
      FindAppend(Keys(d), k, x);
    }
  }

  /** Removing an entry does not move the first occurrence of any other key. */
  lemma {:induction false} FindRemoveAt(ks: seq<string>, i: nat, x: string)
    requires i < |ks| && ks[i] != x
    ensures var j := Find(ks, x);
      Find(ks[..i] + ks[i + 1..], x) == if j < i then j else j - 1
  {
    var r := ks[..i] + ks[i + 1..];
    if i == 0 {
      assert r == ks[1..];
    } else if ks[0] != x {
      var tail := ks[1..];
      assert r[0] == ks[0];
      assert r[1..] == tail[..i - 1] + tail[i..];
      FindRemoveAt(tail, i - 1, x);
    } else {
      assert r[0] == ks[0];
    }
  }

  /** Appending a different key does not move the first occurrence of `x`. */
  lemma FindAppend(ks: seq<string>, k: string, x: string)
    requires x != k
    ensures var j := Find(ks, x); Find(ks + [k], x) == if j < |ks| then j else |ks| + 1
  {
    var r := ks + [k];
    assert forall m :: 0 <= m < |ks| ==> r[m] == ks[m];
  }

  /** In a duplicate-free key list, removing the position of `k` removes
      every occurrence of `k`. */
  lemma {:induction false} WithoutUnique(ks: seq<string>, i: nat)
    requires Distinct(ks) && i < |ks|
    ensures Without(ks, ks[i]) == ks[..i] + ks[i + 1..]
    ensures Distinct(ks[..i] + ks[i + 1..])
  {
    var k := ks[i];
    if i == 0 {
      WithoutAbsent(ks[1..], k);
    } else {
      WithoutUnique(ks[1..], i - 1);
      assert ks[1..][i - 1] == k;
      assert ks[1..][..i - 1] == ks[1..i];
      assert [ks[0]] + (ks[1..i] + ks[i + 1..]) == ks[..i] + ks[i + 1..];
    }
    DistinctRemove(ks, i);
  }

  /** Removing one element keeps the others distinct. */
  lemma DistinctRemove(ks: seq<string>, i: nat)
    requires Distinct(ks) && i < |ks|
    ensures Distinct(ks[..i] + ks[i + 1..])
  {
    var r := ks[..i] + ks[i + 1..];
    forall a, b | 0 <= a < b < |r|
      ensures r[a] != r[b]
    {
      var a' := if a < i then a else a + 1;
      var b' := if b < i then b else b + 1;
      assert r[a] == ks[a'] && r[b] == ks[b'];
    }
  }

  /** Leaving out an absent key changes nothing. */
  lemma {:induction false} WithoutAbsent(ks: seq<string>, k: string)
    requires k !in ks
    ensures Without(ks, k) == ks
  {
    if ks != [] {
      WithoutAbsent(ks[1..], k);
      assert [ks[0]] + ks[1..] == ks;
    }
  }
}
