/** Cardinality facts about finite sets of integers, used to count colours. */
module SetFacts {

  function RangeSet(m: nat): (r: set<int>)
    ensures forall i :: i in r <==> 0 <= i < m
    ensures |r| == m
  {
    if m == 0 then {}
    else
      var r := RangeSet(m - 1) + {m - 1};
      assert m - 1 !in RangeSet(m - 1);
      r
  }

  /** A set of size m inside [0, m) is all of [0, m). */
  lemma {:induction false} FullRange(s: set<int>, m: nat)
    requires forall x :: x in s ==> 0 <= x < m
    requires |s| == m
    ensures s == RangeSet(m)
  {
    var r := RangeSet(m);
    assert s <= r;
    if s != r {
      var x :| x in r && x !in s;
      assert s <= r - {x};
      SubsetCard(s, r - {x});
    }
  }

  lemma {:induction false} SubsetCard(a: set<int>, b: set<int>)
    requires a <= b
    ensures |a| <= |b|
  {
    assert b == a + (b - a);
  }

  lemma {:induction false} NonEmpty(s: set<int>)
    requires |s| > 0
    ensures exists e :: e in s
  {
    if forall e :: e !in s {
      assert false;
    }
  }

  /** Every value of a map is the value of some key. */
  lemma {:induction false} ValueHasKey(m: map<int, int>, x: int)
    requires x in m.Values
    ensures exists k :: k in m && m[k] == x
  {
    if forall k :: k in m ==> m[k] != x {
      assert false;
    }
  }

  function Image(s: set<int>, f: int -> int): set<int> {
    set x | x in s :: f(x)
  }

  predicate InjectiveOn(s: set<int>, f: int -> int) {
    forall a, b :: a in s && b in s && a != b ==> f(a) != f(b)
  }

  /** An injective function keeps the size of a set. */
  lemma {:induction false} ImageCard(s: set<int>, f: int -> int)
    requires InjectiveOn(s, f)
    ensures |Image(s, f)| == |s|
    decreases |s|
  {
    if |s| > 0 {
      NonEmpty(s);
      var e :| e in s;
      var rest := s - {e};
      assert InjectiveOn(rest, f);
      ImageCard(rest, f);
      assert Image(s, f) == Image(rest, f) + {f(e)};
      assert f(e) !in Image(rest, f);
    } else {
      assert s == {};
    }
  }
}
