/**
 * Python dictionaries with integer keys, as the writers see them: an insertion-ordered
 * list of (key, value) entries whose keys are distinct. Iterating `items()`, `keys()`
 * or `values()` walks the entries in that order; `d[k] = v` overwrites an existing key
 * in place and appends a new one.
 */
module Dicts {
  import opened Wrappers

  type Dict<V> = seq<(int, V)>

  predicate DistinctKeys<V>(d: Dict<V>) {
    forall i, j :: 0 <= i < j < |d| ==> d[i].0 != d[j].0
  }

  function KeysOf<V>(d: Dict<V>): (r: seq<int>)
    ensures |r| == |d|
    ensures forall i :: 0 <= i < |d| ==> r[i] == d[i].0
  {
    seq(|d|, i requires 0 <= i < |d| => d[i].0)
  }

  function ValuesOf<V>(d: Dict<V>): (r: seq<V>)
    ensures |r| == |d|
    ensures forall i :: 0 <= i < |d| ==> r[i] == d[i].1
  {
    seq(|d|, i requires 0 <= i < |d| => d[i].1)
  }

  /** `d.get(k)`: the value of the first entry with key `k`. */
  function Get<V>(d: Dict<V>, k: int): (r: Option<V>)
    ensures r.None? <==> forall i :: 0 <= i < |d| ==> d[i].0 != k
    ensures r.Some? ==> exists i :: 0 <= i < |d| && d[i] == (k, r.value)
  {
    if |d| == 0 then None
    else if d[0].0 == k then Some(d[0].1)
    else
      var r := Get(d[1..], k);
      assert forall i :: 0 < i < |d| ==> d[i] == d[1..][i - 1];
      assert r.Some? ==> exists i :: 0 <= i < |d| && d[i] == (k, r.value) by {
        if r.Some? {
          var i :| 0 <= i < |d| - 1 && d[1..][i] == (k, r.value);
          assert d[i + 1] == (k, r.value);
        }
      }
      r
  }

  /** The dictionary as a map from each key to the value `d[key]` gives. */
  function ToMap<V>(d: Dict<V>): (m: map<int, V>)
    ensures forall k :: k in m <==> Get(d, k).Some?
    ensures forall k :: k in m ==> Get(d, k) == Some(m[k])
  {
    map k | k in KeysOf(d) && Get(d, k).Some? :: Get(d, k).value
  }

  /** With distinct keys, the entry at any position is what `Get` finds for its key. */
  lemma {:induction false} GetAt<V>(d: Dict<V>, i: nat)
    requires DistinctKeys(d)
    requires i < |d|
    ensures Get(d, d[i].0) == Some(d[i].1)
    decreases i
  {
    if i > 0 {
      var t := d[1..];
      assert t[i - 1] == d[i];
      assert d[0].0 != d[i].0;
      assert DistinctKeys(t) by {
        forall a, b | 0 <= a < b < |t| ensures t[a].0 != t[b].0 {
          assert t[a] == d[a + 1] && t[b] == d[b + 1];
        }
      }
      GetAt(t, i - 1);
    }
  }

  /** `d[k] = v`: overwrite the entry with key `k` in place, or append a new entry. */
  function Put<V>(d: Dict<V>, k: int, v: V): (r: Dict<V>)
    ensures |r| == if Get(d, k).Some? then |d| else |d| + 1
    ensures forall i :: 0 <= i < |d| ==> r[i].0 == d[i].0
    ensures forall i :: 0 <= i < |d| && d[i].0 != k ==> r[i] == d[i]
    ensures Get(d, k).None? ==> r == d + [(k, v)]
  {
    if |d| == 0 then [(k, v)]
    else if d[0].0 == k then [(k, v)] + d[1..]
    else
      var r := [d[0]] + Put(d[1..], k, v);
      assert forall i :: 0 < i < |d| ==> d[i] == d[1..][i - 1] && r[i] == Put(d[1..], k, v)[i - 1];
      assert Get(d, k).None? ==> r == d + [(k, v)] by {
        if Get(d, k).None? {
          assert d == [d[0]] + d[1..];
        }
      }
      r
  }

  /** After `d[k] = v`, key `k` has value `v` and every other key keeps its value; keys stay distinct. */
  lemma {:induction false} PutGet<V>(d: Dict<V>, k: int, v: V, k': int)
    requires DistinctKeys(d)
    ensures DistinctKeys(Put(d, k, v))
    ensures Get(Put(d, k, v), k') == if k' == k then Some(v) else Get(d, k')
  {
    PutDistinct(d, k, v);
    PutGetValue(d, k, v, k');
  }

  /** Assignment never makes two entries share a key. */
  lemma {:induction false} PutDistinct<V>(d: Dict<V>, k: int, v: V)
    requires DistinctKeys(d)
    ensures DistinctKeys(Put(d, k, v))
  {
    var r := Put(d, k, v);
    forall a, b | 0 <= a < b < |r| ensures r[a].0 != r[b].0 {
      if b == |d| {
        assert r == d + [(k, v)];
        assert r[b].0 == k && r[a].0 == d[a].0;
      } else {
        assert r[a].0 == d[a].0 && r[b].0 == d[b].0;
      }
    }
  }

  /** What `d.get` reads after `d[k] = v`. */
  lemma {:induction false} PutGetValue<V>(d: Dict<V>, k: int, v: V, k': int)
    ensures Get(Put(d, k, v), k') == if k' == k then Some(v) else Get(d, k')
    decreases |d|
  {
    var r := Put(d, k, v);
    if |d| > 0 && d[0].0 != k {
      var t := d[1..];
      PutGetValue(t, k, v, k');
      assert r == [d[0]] + Put(t, k, v);
      assert r[0] == d[0] && r[1..] == Put(t, k, v);
    } else if |d| > 0 {
      assert r == [(k, v)] + d[1..];
      assert r[1..] == d[1..];
    }
  }

  /** Assignment adds a key at the end when it is new, and leaves the key order alone otherwise. */
  lemma {:induction false} KeysOfPut<V>(d: Dict<V>, k: int, v: V)
    ensures KeysOf(Put(d, k, v)) == if Get(d, k).Some? then KeysOf(d) else KeysOf(d) + [k]
  {
  }

  lemma {:induction false} ValuesOfSnoc<V>(d: Dict<V>)
    requires |d| > 0
    ensures ValuesOf(d) == ValuesOf(d[..|d| - 1]) + [d[|d| - 1].1]
  {
  }

  /** The entries of a map for the keys `0 .. n-1`, in ascending key order. */
  function FromMap<V>(m: map<int, V>, n: nat): (d: Dict<V>)
    ensures DistinctKeys(d)
    ensures forall k :: Get(d, k) == if 0 <= k < n && k in m then Some(m[k]) else None
  {
    if n == 0 then []
    else
      var d := FromMap(m, n - 1);
      if n - 1 in m then
        var e := (n - 1, m[n - 1]);
        AppendNew(d, e);
        forall k | k != n - 1 ensures Get(d + [e], k) == Get(d, k) {
          GetSnoc(d, e, k);
        }
        d + [e]
      else d
  }

  /** Reading the entries back as a map gives the original map cut down to those keys. */
  lemma {:induction false} FromMapToMap<V>(m: map<int, V>, n: nat)
    ensures ToMap(FromMap(m, n)) == map k | k in m && 0 <= k < n :: m[k]
  {
  }

  /** The keys whose value is `v`, in entry order. */
  function KeysWith(d: Dict<int>, v: int): (r: seq<int>)
    ensures |r| == multiset(ValuesOf(d))[v]
  {
    if |d| == 0 then []
    else
      assert ValuesOf(d) == ValuesOf(d[..|d| - 1]) + [d[|d| - 1].1];
      KeysWith(d[..|d| - 1], v) + (if d[|d| - 1].1 == v then [d[|d| - 1].0] else [])
  }

  lemma {:induction false} KeysWithSnoc(d: Dict<int>, v: int)
    requires |d| > 0
    ensures KeysWith(d, v) == KeysWith(d[..|d| - 1], v) + if d[|d| - 1].1 == v then [d[|d| - 1].0] else []
  {
  }

  /** A key is listed under `v` exactly when its entry carries `v`. */
  lemma {:induction false} KeysWithMember(d: Dict<int>, v: int, k: int)
    requires DistinctKeys(d)
    ensures k in KeysWith(d, v) <==> Get(d, k) == Some(v)
    decreases |d|
  {
    if |d| > 0 {
      var init := d[..|d| - 1];
      var last := d[|d| - 1];
      assert d == init + [last];
      var tail: seq<int> := if last.1 == v then [last.0] else [];
      assert KeysWith(d, v) == KeysWith(init, v) + tail;
      DistinctKeysInit(d);
      KeysWithMember(init, v, k);
      if last.0 == k {
        GetAt(d, |d| - 1);
      } else {
        GetSnoc(init, last, k);
      }
    }
  }

  /** Dropping the last entry keeps the keys distinct, and its key does not occur before it. */
  lemma {:induction false} DistinctKeysInit<V>(d: Dict<V>)
    requires DistinctKeys(d) && |d| > 0
    ensures DistinctKeys(d[..|d| - 1])
    ensures Get(d[..|d| - 1], d[|d| - 1].0).None?
  {
    var init := d[..|d| - 1];
    forall a, b | 0 <= a < b < |init| ensures init[a].0 != init[b].0 {
      assert init[a] == d[a] && init[b] == d[b];
    }
    forall i | 0 <= i < |init| ensures init[i].0 != d[|d| - 1].0 {
      assert init[i] == d[i];
    }
  }

  /** Appending an entry with another key does not change what a lookup finds. */
  lemma {:induction false} GetSnoc<V>(d: Dict<V>, e: (int, V), k: int)
    requires e.0 != k
    ensures Get(d + [e], k) == Get(d, k)
    decreases |d|
  {
    if |d| > 0 {
      assert (d + [e])[1..] == d[1..] + [e];
      GetSnoc(d[1..], e, k);
    } else {
      assert (d + [e])[1..] == [];
    }
  }

  /** Appending an entry with a new key keeps the keys distinct, and a lookup of that key finds it. */
  lemma {:induction false} AppendNew<V>(d: Dict<V>, e: (int, V))
    requires DistinctKeys(d) && Get(d, e.0).None?
    ensures DistinctKeys(d + [e])
    ensures Get(d + [e], e.0) == Some(e.1)
  {
    var r := d + [e];
    forall a, b | 0 <= a < b < |r| ensures r[a].0 != r[b].0 {
      assert r[a] == d[a];
      if b < |d| {
        assert r[b] == d[b];
      }
    }
    GetAppended(d, e);
  }

  lemma {:induction false} GetAppended<V>(d: Dict<V>, e: (int, V))
    requires Get(d, e.0).None?
    ensures Get(d + [e], e.0) == Some(e.1)
    decreases |d|
  {
    if |d| > 0 {
      assert (d + [e])[1..] == d[1..] + [e];
      GetAppended(d[1..], e);
    }
  }

  /** Keys listed under a value are distinct, since the dictionary's keys are. */
  lemma {:induction false} KeysWithDistinct(d: Dict<int>, v: int)
    requires DistinctKeys(d)
    ensures forall i, j :: 0 <= i < j < |KeysWith(d, v)| ==> KeysWith(d, v)[i] != KeysWith(d, v)[j]
    decreases |d|
  {
    if |d| > 0 {
      var init := d[..|d| - 1];
      var last := d[|d| - 1];
      DistinctKeysInit(d);
      KeysWithDistinct(init, v);
      if last.1 == v {
        var a := KeysWith(init, v);
        var r := KeysWith(d, v);
        assert r == a + [last.0];
        forall i | 0 <= i < |a| ensures a[i] != last.0 {
          KeysWithMember(init, v, a[i]);
          assert a[i] in KeysWith(init, v);
          var j :| 0 <= j < |init| && init[j] == (a[i], v);
          assert d[j] == init[j];
        }
      }
    }
  }

  /** The largest value of a non-empty list: Python's `max`. */
  function MaxOf(s: seq<int>): (m: int)
    requires |s| > 0
    ensures m in s
    ensures forall i :: 0 <= i < |s| ==> s[i] <= m
  {
    if |s| == 1 then s[0]
    else
      var m := MaxOf(s[..|s| - 1]);
      assert forall i :: 0 <= i < |s| - 1 ==> s[..|s| - 1][i] == s[i];
      if s[|s| - 1] > m then s[|s| - 1] else m
  }
}
