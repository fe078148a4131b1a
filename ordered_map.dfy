/** A value model of Python's `collections.OrderedDict`, restricted to the operations the
    cache uses: item assignment, `move_to_end`, `popitem(last=False)` and `clear`. */
module OrderedMap {
  import opened Common

  /** `keys` lists the keys from the first-inserted (oldest) to the last; `vals` holds the
      value stored under each key. */
  datatype ODict<K, V> = ODict(keys: seq<K>, vals: map<K, V>)

  /** Every key is listed exactly once, and the listed keys are the stored keys. */
  ghost predicate Valid<K(!new), V>(d: ODict<K, V>)
  {
    && NoDuplicates(d.keys)
    && (forall k :: k in d.vals <==> k in d.keys)
  }

  /** A fresh, empty dictionary (`OrderedDict()` and the result of `clear()`). */
  function Empty<K(==, !new), V>(): (d: ODict<K, V>)
    ensures Valid(d) && d.keys == [] && d.vals == map[]
  {
    ODict([], map[])
  }

  /** The value stored under `k`, if any (`d.get(k)`). */
  function Get<K(==, !new), V>(d: ODict<K, V>, k: K): (r: Option<V>)
    ensures r.Some? <==> k in d.vals
    ensures r.Some? ==> r.value == d.vals[k]
  {
    if k in d.vals then Some(d.vals[k]) else None
  }

  /** `s` with every occurrence of `k` taken out, the other elements in their order. */
  function Remove<K(==, !new)>(s: seq<K>, k: K): (r: seq<K>)
    ensures forall x :: x in r <==> x in s && x != k
    ensures NoDuplicates(s) ==> NoDuplicates(r)
    ensures NoDuplicates(s) && k in s ==> |r| == |s| - 1
    ensures k !in s ==> r == s
  {
    if |s| == 0 then []
    else if s[0] == k then Remove(s[1..], k)
    else
      var rest := Remove(s[1..], k);
      assert NoDuplicates(s) ==> NoDuplicates(s[1..]) && s[0] !in s[1..] by {
        if NoDuplicates(s) {
          forall i, j | 0 <= i < j < |s[1..]| ensures s[1..][i] != s[1..][j] {
            assert s[1..][i] == s[i + 1] && s[1..][j] == s[j + 1];
          }
          forall i | 0 <= i < |s[1..]| ensures s[1..][i] != s[0] {
            assert s[1..][i] == s[i + 1];
          }
        }
      }
      [s[0]] + rest
  }

  lemma {:induction false} RemoveAppend<K(!new)>(a: seq<K>, b: seq<K>, k: K)
    ensures Remove(a + b, k) == Remove(a, k) + Remove(b, k)
  {
    if |a| == 0 {
      assert a + b == b;
    } else {
      assert (a + b)[0] == a[0];
      assert (a + b)[1..] == a[1..] + b;
      RemoveAppend(a[1..], b, k);
    }
  }

  /** `move_to_end(k)`: `k` becomes the newest key; values and the relative order of the
      other keys are unchanged. */
  function MoveToEnd<K(==, !new), V>(d: ODict<K, V>, k: K): (r: ODict<K, V>)
    requires Valid(d) && k in d.vals
    ensures Valid(r)
    ensures r.vals == d.vals
    ensures |r.keys| == |d.keys| && r.keys[|r.keys| - 1] == k
    ensures Remove(r.keys, k) == Remove(d.keys, k)
  {
    var rest := Remove(d.keys, k);
    RemoveAppend(rest, [k], k);
    assert Remove([k], k) == [];
    ODict(rest + [k], d.vals)
  }

  /** Item assignment `d[k] = v`: a new key is appended as the newest; an existing key is
      given the new value and keeps its position. */
  function Put<K(==, !new), V>(d: ODict<K, V>, k: K, v: V): (r: ODict<K, V>)
    requires Valid(d)
    ensures Valid(r)
    ensures r.vals == d.vals[k := v]
    ensures k in d.vals ==> r.keys == d.keys
    ensures k !in d.vals ==> r.keys == d.keys + [k]
  {
    if k in d.vals then ODict(d.keys, d.vals[k := v])
    else ODict(d.keys + [k], d.vals[k := v])
  }

  /** `popitem(last=False)`: removes the oldest key and its value. */
  function PopFirst<K(==, !new), V>(d: ODict<K, V>): (r: ODict<K, V>)
    requires Valid(d) && |d.keys| > 0
    ensures Valid(r)
    ensures r.keys == d.keys[1..]
    ensures forall k :: k in r.vals <==> k in d.vals && k != d.keys[0]
    ensures forall k :: k in r.vals ==> r.vals[k] == d.vals[k]
  {
    ODict(d.keys[1..], d.vals - {d.keys[0]})
  }
}
