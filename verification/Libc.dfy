/** The C library's `qsort` on integers and its `bsearch`. */
module Libc {
  import opened Basics

  predicate StrictlySorted(s: seq<int>) {
    forall i, j :: 0 <= i < j < |s| ==> s[i] < s[j]
  }

  function Insert(s: seq<int>, x: int): (r: seq<int>)
    ensures |r| == |s| + 1
  {
    if s == [] then [x]
    else if x <= s[0] then [x] + s
    else [s[0]] + Insert(s[1..], x)
  }

  function Qsort(s: seq<int>): (r: seq<int>)
    ensures |r| == |s|
  {
    if s == [] then [] else Insert(Qsort(s[1..]), s[0])
  }

  lemma {:induction false} InsertElements(s: seq<int>, x: int, y: int)
    ensures y in Insert(s, x) <==> y == x || y in s
  {
    if s != [] {
      assert s == [s[0]] + s[1..];
      InsertElements(s[1..], x, y);
    }
  }

  lemma {:induction false} InsertStrict(s: seq<int>, x: int)
    requires StrictlySorted(s) && x !in s
    ensures StrictlySorted(Insert(s, x))
  {
    if s != [] && x > s[0] {
      InsertStrict(s[1..], x);
      var r := Insert(s[1..], x);
      forall i | 0 <= i < |r|
        ensures s[0] < r[i]
      {
        InsertElements(s[1..], x, r[i]);
        assert r[i] in r;
      }
    } else if s != [] {
      assert x != s[0];
    }
  }

  function Elements(s: seq<int>): set<int> {
    set x | x in s
  }

  lemma {:induction false} DistinctSize(s: seq<int>)
    requires Distinct(s)
    ensures |Elements(s)| == |s|
  {
    if s != [] {
      DistinctSize(s[1..]);
      assert s == [s[0]] + s[1..];
      assert Elements(s) == {s[0]} + Elements(s[1..]);
      assert s[0] !in s[1..];
    }
  }

  lemma {:induction false} QsortElements(s: seq<int>)
    ensures forall x :: x in Qsort(s) <==> x in s
  {
    if s != [] {
      QsortElements(s[1..]);
      assert s == [s[0]] + s[1..];
      forall x
        ensures x in Qsort(s) <==> x in s
      {
        InsertElements(Qsort(s[1..]), s[0], x);
      }
    }
  }

  /** Sorted lists with the same elements are equal. */
  lemma {:induction false} SortedSame(a: seq<int>, b: seq<int>)
    requires StrictlySorted(a) && StrictlySorted(b) && Elements(a) == Elements(b)
    ensures a == b
  {
    assert a != [] ==> a[0] in Elements(a);
    assert b != [] ==> b[0] in Elements(b);
    if a != [] && b != [] {
      assert a == [a[0]] + a[1..] && b == [b[0]] + b[1..];
      assert Elements(a[1..]) == Elements(a) - {a[0]};
      assert Elements(b[1..]) == Elements(b) - {b[0]};
      SortedSame(a[1..], b[1..]);
    }
  }

  predicate Sorted(s: seq<int>) {
    forall i, j :: 0 <= i < j < |s| ==> s[i] <= s[j]
  }

  lemma {:induction false} InsertAdds(s: seq<int>, x: int)
    ensures multiset(Insert(s, x)) == multiset(s) + multiset{x}
  {
    if s != [] && x > s[0] {
      InsertAdds(s[1..], x);
      assert s == [s[0]] + s[1..];
    }
  }

  lemma {:induction false} InsertSorts(s: seq<int>, x: int)
    requires Sorted(s)
    ensures Sorted(Insert(s, x))
  {
    if s != [] && x > s[0] {
      InsertSorts(s[1..], x);
      var r := Insert(s[1..], x);
      forall i | 0 <= i < |r|
        ensures s[0] <= r[i]
      {
        InsertElements(s[1..], x, r[i]);
        assert r[i] in r;
      }
    }
  }

  /** Any integers come out in order, each as often as it went in. */
  lemma {:induction false} QsortSorts(s: seq<int>)
    ensures Sorted(Qsort(s)) && multiset(Qsort(s)) == multiset(s)
  {
    if s != [] {
      QsortSorts(s[1..]);
      assert s == [s[0]] + s[1..];
      InsertSorts(Qsort(s[1..]), s[0]);
      InsertAdds(Qsort(s[1..]), s[0]);
      hide Sorted, Insert;
    }
  }

  /** Sorting distinct integers gives them in strictly increasing order. */
  lemma {:induction false} QsortDistinct(s: seq<int>)
    requires Distinct(s)
    ensures StrictlySorted(Qsort(s))
    ensures forall x :: x in Qsort(s) <==> x in s
  {
    if s != [] {
      QsortDistinct(s[1..]);
      assert s == [s[0]] + s[1..];
      InsertStrict(Qsort(s[1..]), s[0]);
      forall x
        ensures x in Qsort(s) <==> x in s
      {
        InsertElements(Qsort(s[1..]), s[0], x);
      }
    }
  }

  function Sign(x: int): int {
    if x < 0 then -1 else if x > 0 then 1 else 0
  }

  /** The comparison never turns back from smaller to larger along the array. */
  ghost predicate Monotone<E>(s: seq<E>, cmp: E -> int) {
    forall i, j :: 0 <= i < j < |s| ==> Sign(cmp(s[i])) >= Sign(cmp(s[j]))
  }

  /** `bsearch`, with the comparison already applied to the key: positive below the
      matching elements, negative above them. On an array that is not ordered it may
      miss a match, but what it finds is one. */
  method BSearch<E>(s: seq<E>, cmp: E -> int) returns (k: int)
    ensures k == -1 || (0 <= k < |s| && cmp(s[k]) == 0)
    ensures k == -1 && Monotone(s, cmp) ==> forall i :: 0 <= i < |s| ==> cmp(s[i]) != 0
  {
    var l, u := 0, |s|;
    while l < u
      invariant 0 <= l <= u <= |s|
      invariant Monotone(s, cmp) ==> forall i :: 0 <= i < l ==> cmp(s[i]) > 0
      invariant Monotone(s, cmp) ==> forall i :: u <= i < |s| ==> cmp(s[i]) < 0
    {
      var idx := (l + u) / 2;
      var c := cmp(s[idx]);
      if c < 0 {
        forall i | Monotone(s, cmp) && idx <= i < |s|
          ensures cmp(s[i]) < 0
        {
          assert i > idx ==> Sign(cmp(s[idx])) >= Sign(cmp(s[i]));
        }
        u := idx;
      } else if c > 0 {
        forall i | Monotone(s, cmp) && 0 <= i <= idx
          ensures cmp(s[i]) > 0
        {
          assert i < idx ==> Sign(cmp(s[i])) >= Sign(cmp(s[idx]));
        }
        l := idx + 1;
      } else {
        return idx;
      }
    }
    return -1;
  }
}
