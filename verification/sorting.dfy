/**
 * Python's `sorted(xs, key=k, reverse=True)`: a stable sort into non-increasing key
 * order, elements with equal keys keeping their original relative order. Written as
 * an insertion sort that places each element after every element whose key is at
 * least its own.
 */
module Sorting {

  predicate SortedDesc<T>(s: seq<T>, key: T -> real) {
    forall i, j :: 0 <= i < j < |s| ==> key(s[i]) >= key(s[j])
  }

  /** The elements of `s` whose key is `v`, in their order in `s`. */
  function KeyFilter<T>(s: seq<T>, key: T -> real, v: real): (r: seq<T>)
    ensures |r| <= |s|
  {
    if |s| == 0 then []
    else (if key(s[0]) == v then [s[0]] else []) + KeyFilter(s[1..], key, v)
  }

  function Insert<T>(x: T, s: seq<T>, key: T -> real): (r: seq<T>)
    ensures |r| == |s| + 1
    ensures multiset(r) == multiset(s) + multiset{x}
  {
    if |s| == 0 then [x]
    else if key(s[0]) >= key(x) then
      assert s == [s[0]] + s[1..];
      [s[0]] + Insert(x, s[1..], key)
    else
      [x] + s
  }

  lemma {:induction false} SortedDescTail<T>(s: seq<T>, key: T -> real)
    requires SortedDesc(s, key) && |s| > 0
    ensures SortedDesc(s[1..], key)
    ensures forall y :: y in s[1..] ==> key(y) <= key(s[0])
  {
    forall i, j | 0 <= i < j < |s| - 1 ensures key(s[1..][i]) >= key(s[1..][j]) {
      assert s[1..][i] == s[i + 1] && s[1..][j] == s[j + 1];
    }
    forall y | y in s[1..] ensures key(y) <= key(s[0]) {
      var k :| 0 <= k < |s| - 1 && s[1..][k] == y;
      assert s[1..][k] == s[k + 1];
    }
  }

  /** Inserting into a non-increasing sequence keeps it non-increasing. */
  lemma {:induction false} InsertSorted<T>(x: T, s: seq<T>, key: T -> real)
    requires SortedDesc(s, key)
    ensures SortedDesc(Insert(x, s, key), key)
    decreases |s|
  {
    if |s| > 0 && key(s[0]) >= key(x) {
      var t := s[1..];
      SortedDescTail(s, key);
      InsertSorted(x, t, key);
      var rest := Insert(x, t, key);
      assert Insert(x, s, key) == [s[0]] + rest;
      forall y | y in rest ensures key(y) <= key(s[0]) {
        assert y in multiset(rest);
        assert y == x || y in multiset(t);
      }
      ConsSorted(s[0], rest, key);
    } else if |s| > 0 {
      forall y | y in s ensures key(y) <= key(x) {
        var k :| 0 <= k < |s| && s[k] == y;
        assert key(s[0]) >= key(s[k]);
      }
      ConsSorted(x, s, key);
    }
  }

  /** Putting an element in front of a non-increasing sequence whose keys it bounds. */
  lemma {:induction false} ConsSorted<T>(h: T, rest: seq<T>, key: T -> real)
    requires SortedDesc(rest, key)
    requires forall y :: y in rest ==> key(y) <= key(h)
    ensures SortedDesc([h] + rest, key)
  {
    var r := [h] + rest;
    forall i, j | 0 <= i < j < |r| ensures key(r[i]) >= key(r[j]) {
      assert r[j] == rest[j - 1];
      assert rest[j - 1] in rest;
      if i > 0 {
        assert r[i] == rest[i - 1];
      }
    }
  }

  function SortDesc<T>(s: seq<T>, key: T -> real): (r: seq<T>)
    ensures |r| == |s|
    ensures multiset(r) == multiset(s)
    ensures SortedDesc(r, key)
  {
    if |s| == 0 then []
    else
      var init := s[..|s| - 1];
      assert s == init + [s[|s| - 1]];
      InsertSorted(s[|s| - 1], SortDesc(init, key), key);
      Insert(s[|s| - 1], SortDesc(init, key), key)
  }

  lemma {:induction false} KeyFilterConcat<T>(a: seq<T>, b: seq<T>, key: T -> real, v: real)
    ensures KeyFilter(a + b, key, v) == KeyFilter(a, key, v) + KeyFilter(b, key, v)
    decreases |a|
  {
    if |a| == 0 {
      assert a + b == b;
    } else {
      var head: seq<T> := if key(a[0]) == v then [a[0]] else [];
      assert (a + b)[0] == a[0];
      assert (a + b)[1..] == a[1..] + b;
      KeyFilterConcat(a[1..], b, key, v);
      assert KeyFilter(a + b, key, v) == head + (KeyFilter(a[1..], key, v) + KeyFilter(b, key, v));
      assert KeyFilter(a, key, v) == head + KeyFilter(a[1..], key, v);
    }
  }

  /** Nothing in a non-increasing sequence has a key above its first element's. */
  lemma {:induction false} KeyFilterAboveHead<T>(s: seq<T>, key: T -> real, v: real)
    requires SortedDesc(s, key) && |s| > 0 && key(s[0]) < v
    ensures KeyFilter(s, key, v) == []
    decreases |s|
  {
    if |s| > 1 {
      var t := s[1..];
      SortedDescTail(s, key);
      assert t[0] in t;
      KeyFilterAboveHead(t, key, v);
    }
  }

  /** Inserting `x` puts it after every element with its key. */
  lemma {:induction false} KeyFilterInsert<T>(x: T, s: seq<T>, key: T -> real, v: real)
    requires SortedDesc(s, key)
    ensures KeyFilter(Insert(x, s, key), key, v) == KeyFilter(s, key, v) + (if key(x) == v then [x] else [])
    decreases |s|
  {
    var fx: seq<T> := if key(x) == v then [x] else [];
    if |s| == 0 {
      assert KeyFilter([x], key, v) == fx + KeyFilter([x][1..], key, v);
    } else if key(s[0]) >= key(x) {
      var t := s[1..];
      var h: seq<T> := if key(s[0]) == v then [s[0]] else [];
      assert SortedDesc(t, key) by { SortedDescTail(s, key); }
      var rest := Insert(x, t, key);
      assert KeyFilter(rest, key, v) == KeyFilter(t, key, v) + fx by { KeyFilterInsert(x, t, key, v); }
      var r := [s[0]] + rest;
      assert Insert(x, s, key) == r;
      assert r[0] == s[0] && r[1..] == rest;
      assert KeyFilter(r, key, v) == h + KeyFilter(rest, key, v);
      assert KeyFilter(s, key, v) == h + KeyFilter(t, key, v);
    } else {
      assert ([x] + s)[1..] == s;
      if key(x) == v {
        KeyFilterAboveHead(s, key, v);
      }
    }
  }

  /** The sort is stable: the elements with any one key come out in their input order. */
  lemma {:induction false} SortDescStable<T>(s: seq<T>, key: T -> real, v: real)
    ensures KeyFilter(SortDesc(s, key), key, v) == KeyFilter(s, key, v)
    decreases |s|
  {
    if |s| > 0 {
      var init := s[..|s| - 1];
      var last := s[|s| - 1];
      var sorted := SortDesc(init, key);
      var fl: seq<T> := if key(last) == v then [last] else [];
      assert SortDesc(s, key) == Insert(last, sorted, key);
      assert KeyFilter(sorted, key, v) == KeyFilter(init, key, v) by { SortDescStable(init, key, v); }
      assert KeyFilter(Insert(last, sorted, key), key, v) == KeyFilter(sorted, key, v) + fl by {
        KeyFilterInsert(last, sorted, key, v);
      }
      assert s == init + [last];
      KeyFilterSnoc(init, last, key, v);
    }
  }

  lemma {:induction false} KeyFilterSnoc<T>(init: seq<T>, last: T, key: T -> real, v: real)
    ensures KeyFilter(init + [last], key, v) == KeyFilter(init, key, v) + (if key(last) == v then [last] else [])
  {
    KeyFilterConcat(init, [last], key, v);
    assert KeyFilter([last], key, v) == (if key(last) == v then [last] else []) + KeyFilter([last][1..], key, v);
  }

  /** `sorted(xs)` for integers: the same elements in ascending order. */
  function Ascending(s: seq<int>): (r: seq<int>)
    ensures multiset(r) == multiset(s)
    ensures forall i, j :: 0 <= i < j < |r| ==> r[i] <= r[j]
  {
    var key := (v: int) => -(v as real);
    var r := SortDesc(s, key);
    assert forall i, j :: 0 <= i < j < |r| ==> key(r[i]) >= key(r[j]);
    r
  }
}
