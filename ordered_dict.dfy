/**
 * The Python `dict` that the catalog is held in: a finite map from string keys
 * to values together with the order in which the keys were first inserted.
 * That order is what `dict.values()` iterates in and what a JSON round trip of
 * the dict keeps.
 */
module OrderedDict {
  import opened Wrappers

  datatype Dict<V> = Dict(keys: seq<string>, entries: map<string, V>)

  ghost predicate Distinct(s: seq<string>) {
    forall i, j :: 0 <= i < j < |s| ==> s[i] != s[j]
  }

  /** The key order lists every key of the map exactly once. */
  ghost predicate Valid<V>(d: Dict<V>) {
    && Distinct(d.keys)
    && (forall k :: k in d.keys <==> k in d.entries)
  }

  /** `{}` */
  function Empty<V>(): (d: Dict<V>)
    ensures Valid(d)
    ensures d.entries == map[] && Values(d) == []
  {
    Dict([], map[])
  }

  /** `d.get(k)`: the value under `k`, or None when `k` is not a key. */
  function Get<V>(d: Dict<V>, k: string): (r: Option<V>)
    ensures r.Some? <==> k in d.entries
    ensures r.Some? ==> r.value == d.entries[k]
  {
    if k in d.entries then Some(d.entries[k]) else None
  }

  /** The values stored under `keys`, in the order of `keys`. */
  function ValuesOf<V>(keys: seq<string>, entries: map<string, V>): (r: seq<V>)
    requires forall k :: k in keys ==> k in entries
    ensures |r| == |keys|
    ensures forall i :: 0 <= i < |keys| ==> r[i] == entries[keys[i]]
  {
    if keys == [] then [] else [entries[keys[0]]] + ValuesOf(keys[1..], entries)
  }

  /** `list(d.values())`: the values in insertion order of their keys. */
  function Values<V>(d: Dict<V>): (r: seq<V>)
    requires Valid(d)
    ensures |r| == |d.keys|
    ensures forall i :: 0 <= i < |r| ==> r[i] == d.entries[d.keys[i]]
  {
    ValuesOf(d.keys, d.entries)
  }

  /** The position of `k` in a key order that contains it. */
  function IndexOf(s: seq<string>, k: string): (i: nat)
    requires k in s
    ensures i < |s| && s[i] == k && k !in s[..i]
  {
    if s[0] == k then 0
    else
      var i := 1 + IndexOf(s[1..], k);
      assert s[..i] == [s[0]] + s[1..][..i - 1];
      i
  }

  /** The key order with `k` taken out. */
  function Without(s: seq<string>, k: string): (r: seq<string>)
    ensures forall x :: x in r <==> x in s && x != k
    ensures Distinct(s) ==> Distinct(r)
    ensures k !in s ==> r == s
  {
    if s == [] then []
    else if s[0] == k then Without(s[1..], k)
    else
      var r := [s[0]] + Without(s[1..], k);
      assert Distinct(s) ==> Distinct(r) by {
        if Distinct(s) {
          assert Distinct(s[1..]) by {
            forall i, j | 0 <= i < j < |s[1..]| ensures s[1..][i] != s[1..][j] {
              assert s[1..][i] == s[i + 1] && s[1..][j] == s[j + 1];
            }
          }
          assert s[0] !in s[1..] by {
            forall j | 0 <= j < |s[1..]| ensures s[1..][j] != s[0] {
              assert s[1..][j] == s[j + 1];
            }
          }
          forall i, j | 0 <= i < j < |r| ensures r[i] != r[j] {
            if i == 0 {
              assert r[j] in Without(s[1..], k);
            }
          }
        }
      }
      r
  }

  /**
   * `d[k] = v`: a key that is already present keeps its position and gets the
   * new value; a new key goes to the end of the order.
   */
  function Set<V>(d: Dict<V>, k: string, v: V): (r: Dict<V>)
    requires Valid(d)
    ensures Valid(r)
    ensures Get(r, k) == Some(v)
    ensures forall k' :: k' != k ==> Get(r, k') == Get(d, k')
    ensures k in d.entries ==> r.keys == d.keys
    ensures k !in d.entries ==> r.keys == d.keys + [k]
  {
    var keys := if k in d.entries then d.keys else d.keys + [k];
    var r := Dict(keys, d.entries[k := v]);
    assert Distinct(keys) by {
      if k !in d.entries {
        forall i, j | 0 <= i < j < |keys| ensures keys[i] != keys[j] {
          if j == |d.keys| {
            assert keys[i] == d.keys[i] && d.keys[i] in d.keys;
          }
        }
      }
    }
    r
  }

  /** `del d[k]` for a key that is present: the other keys keep their order. */
  function Delete<V>(d: Dict<V>, k: string): (r: Dict<V>)
    requires Valid(d) && k in d.entries
    ensures Valid(r)
    ensures k !in r.entries
    ensures forall k' :: k' != k ==> Get(r, k') == Get(d, k')
    ensures r.keys == Without(d.keys, k)
  {
    Dict(Without(d.keys, k), d.entries - {k})
  }

  /** Taking a key out of a key order removes exactly its one position. */
  lemma {:induction false} WithoutAt(s: seq<string>, k: string)
    requires Distinct(s) && k in s
    ensures Without(s, k) == s[..IndexOf(s, k)] + s[IndexOf(s, k) + 1..]
  {
    if s[0] == k {
      assert k !in s[1..] by {
        forall j | 0 <= j < |s[1..]| ensures s[1..][j] != k {
          assert s[1..][j] == s[j + 1];
        }
      }
    } else {
      var t := s[1..];
      assert Distinct(t) by {
        forall i, j | 0 <= i < j < |t| ensures t[i] != t[j] {
          assert t[i] == s[i + 1] && t[j] == s[j + 1];
        }
      }
      WithoutAt(t, k);
      var i := IndexOf(s, k);
      assert IndexOf(t, k) == i - 1;
      assert s[..i] == [s[0]] + t[..i - 1];
      assert s[i + 1..] == t[i..];
    }
  }

  /** Inserting a new key and deleting it again gives back the same dict. */
  lemma SetThenDelete<V>(d: Dict<V>, k: string, v: V)
    requires Valid(d) && k !in d.entries
    ensures Delete(Set(d, k, v), k) == d
  {
    var s := Set(d, k, v);
    assert k !in d.keys;
    WithoutAt(s.keys, k);
    assert IndexOf(s.keys, k) == |d.keys|;
    assert s.keys[..|d.keys|] == d.keys;
    assert (d.entries[k := v]) - {k} == d.entries;
  }

  /** After `d[k] = v` for a new key, `v` is the last value. */
  lemma SetNewValues<V>(d: Dict<V>, k: string, v: V)
    requires Valid(d) && k !in d.entries
    ensures Values(Set(d, k, v)) == Values(d) + [v]
  {
  }

  /** After `d[k] = v` for a present key, only that key's position changes value. */
  lemma SetExistingValues<V>(d: Dict<V>, k: string, v: V)
    requires Valid(d) && k in d.entries
    ensures Values(Set(d, k, v)) == Values(d)[IndexOf(d.keys, k) := v]
  {
  }

  /** A sequence is its part before position `i`, the element there, and the part after. */
  lemma SplitAt<T>(s: seq<T>, i: nat)
    requires i < |s|
    ensures s == s[..i] + ([s[i]] + s[i + 1..])
  {
  }

  /** Slicing `a + [x] + b` around `x` gives back `a` and `b`. */
  lemma SliceAround<T>(a: seq<T>, x: T, b: seq<T>)
    ensures (a + ([x] + b))[..|a|] == a && (a + ([x] + b))[|a| + 1..] == b
  {
  }

  /** The value list of a concatenated key order is the concatenation of the value lists. */
  lemma {:induction false} ValuesOfAppend<V>(a: seq<string>, b: seq<string>, entries: map<string, V>)
    requires forall k :: k in a + b ==> k in entries
    ensures ValuesOf(a + b, entries) == ValuesOf(a, entries) + ValuesOf(b, entries)
  {
    if a == [] {
      assert a + b == b;
    } else {
      assert (a + b)[1..] == a[1..] + b;
      ValuesOfAppend(a[1..], b, entries);
    }
  }

  /** Maps that agree on every key of the order give the same value list. */
  lemma {:induction false} ValuesOfAgree<V>(keys: seq<string>, e1: map<string, V>, e2: map<string, V>)
    requires forall k :: k in keys ==> k in e1 && k in e2 && e1[k] == e2[k]
    ensures ValuesOf(keys, e1) == ValuesOf(keys, e2)
  {
    if keys != [] {
      ValuesOfAgree(keys[1..], e1, e2);
    }
  }

  /**
   * Dropping position `i` of a key order drops that position's value, for any
   * map that agrees with `e` on the keys that remain.
   */
  lemma ValuesOfDrop<V>(ks: seq<string>, i: nat, e: map<string, V>, e': map<string, V>)
    requires i < |ks|
    requires forall x :: x in ks ==> x in e
    requires forall x :: x in ks[..i] + ks[i + 1..] ==> x in e' && e'[x] == e[x]
    ensures ValuesOf(ks[..i] + ks[i + 1..], e') == ValuesOf(ks, e)[..i] + ValuesOf(ks, e)[i + 1..]
  {
    var front, rear := ks[..i], ks[i + 1..];
    SplitAt(ks, i);
    ValuesOfAgree(front + rear, e', e);
    ValuesOfAppend(front, rear, e);
    ValuesOfAppend(front, [ks[i]] + rear, e);
    ValuesOfAppend([ks[i]], rear, e);
    SliceAround(ValuesOf(front, e), e[ks[i]], ValuesOf(rear, e));
  }

  /** `del d[k]` takes exactly that key's value out of the value list. */
  lemma DeleteValues<V>(d: Dict<V>, k: string)
    requires Valid(d) && k in d.entries
    ensures var i := IndexOf(d.keys, k);
      Values(Delete(d, k)) == Values(d)[..i] + Values(d)[i + 1..]
  {
    var i := IndexOf(d.keys, k);
    var rest := Without(d.keys, k);
    WithoutAt(d.keys, k);
    assert forall x :: x in rest ==> x in d.entries - {k};
    ValuesOfDrop(d.keys, i, d.entries, d.entries - {k});
  }
}
