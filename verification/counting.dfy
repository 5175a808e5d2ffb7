/** Sequences without repeats, and counting occurrences (Python's `list.count`) with multisets. */
module Counting {

  predicate NoDuplicates<T(==)>(s: seq<T>) {
    forall a, b :: 0 <= a < b < |s| ==> s[a] != s[b]
  }

  lemma {:induction false} NoDuplicatesCount<T>(s: seq<T>)
    requires NoDuplicates(s)
    ensures forall x :: multiset(s)[x] <= 1
    decreases |s|
  {
    if |s| > 0 {
      var tail := s[1..];
      assert s == [s[0]] + tail;
      assert NoDuplicates(tail) by {
        forall a, b | 0 <= a < b < |tail| ensures tail[a] != tail[b] {
          assert tail[a] == s[a + 1] && tail[b] == s[b + 1];
        }
      }
      NoDuplicatesCount(tail);
      assert s[0] !in tail by {
        forall j | 0 <= j < |tail| ensures tail[j] != s[0] {
          assert tail[j] == s[j + 1];
        }
      }
    }
  }

  /** A reordering of a sequence without repeats has none either. */
  lemma {:induction false} NoDuplicatesPermutation<T>(a: seq<T>, b: seq<T>)
    requires NoDuplicates(a) && multiset(a) == multiset(b)
    ensures NoDuplicates(b)
  {
    NoDuplicatesCount(a);
    forall i, j | 0 <= i < j < |b| ensures b[i] != b[j] {
      var x := b[j];
      assert b == b[..j] + b[j..];
      assert b[..j][i] == b[i];
      assert b[j..][0] == x;
      assert multiset(b)[x] == multiset(b[..j])[x] + multiset(b[j..])[x];
      assert multiset(b[j..])[x] >= 1;
    }
  }

  /** A sequence without repeats holds each of its elements exactly once. */
  lemma {:induction false} NoDuplicatesOnce<T>(s: seq<T>, x: T)
    requires NoDuplicates(s)
    ensures multiset(s)[x] == if x in s then 1 else 0
  {
    NoDuplicatesCount(s);
  }

  /** The total of `vs.count(c)` over the values `c` in `cs`. */
  function SumCounts(cs: seq<int>, vs: seq<int>): nat {
    if |cs| == 0 then 0 else SumCounts(cs[..|cs| - 1], vs) + multiset(vs)[cs[|cs| - 1]]
  }

  /** How many entries of `vs` are values listed in `cs`. */
  function CountIn(vs: seq<int>, cs: seq<int>): (n: nat)
    ensures n <= |vs|
  {
    if |vs| == 0 then 0 else CountIn(vs[..|vs| - 1], cs) + (if vs[|vs| - 1] in cs then 1 else 0)
  }

  lemma {:induction false} SumCountsSnoc(cs: seq<int>, vs: seq<int>, x: int)
    ensures SumCounts(cs, vs + [x]) == SumCounts(cs, vs) + multiset(cs)[x]
    decreases |cs|
  {
    if |cs| > 0 {
      var init := cs[..|cs| - 1];
      SumCountsSnoc(init, vs, x);
      assert cs == init + [cs[|cs| - 1]];
    }
  }

  /** Counting each of a list of distinct values once counts every entry that has one of them. */
  lemma {:induction false} SumCountsDistinct(cs: seq<int>, vs: seq<int>)
    requires NoDuplicates(cs)
    ensures SumCounts(cs, vs) == CountIn(vs, cs)
    decreases |vs|
  {
    if |vs| == 0 {
      SumCountsEmpty(cs, vs);
    } else {
      var init := vs[..|vs| - 1];
      var x := vs[|vs| - 1];
      assert vs == init + [x];
      SumCountsDistinct(cs, init);
      SumCountsSnoc(cs, init, x);
      NoDuplicatesOnce(cs, x);
    }
  }

  lemma {:induction false} SumCountsEmpty(cs: seq<int>, vs: seq<int>)
    requires |vs| == 0
    ensures SumCounts(cs, vs) == 0
    decreases |cs|
  {
    if |cs| > 0 {
      SumCountsEmpty(cs[..|cs| - 1], vs);
    }
  }

  /** When every entry's value is listed, all of them are counted. */
  lemma {:induction false} CountInAll(vs: seq<int>, cs: seq<int>)
    requires forall i :: 0 <= i < |vs| ==> vs[i] in cs
    ensures CountIn(vs, cs) == |vs|
    decreases |vs|
  {
    if |vs| > 0 {
      CountInAll(vs[..|vs| - 1], cs);
    }
  }

  /** Reorderings have the same members. */
  lemma {:induction false} PermutationMembers<T>(a: seq<T>, b: seq<T>)
    requires multiset(a) == multiset(b)
    ensures forall x :: x in a <==> x in b
  {
    forall x ensures x in a <==> x in b {
      assert x in a <==> x in multiset(a);
      assert x in b <==> x in multiset(b);
    }
  }
}
