/**
 Selection sort by a key, largest first, as a function on sequences.
 */
module StableSort {
  /** The first index with the largest key. */
  function FirstMax(k: seq<int>): (m: nat)
    requires k != []
    ensures m < |k|
    ensures forall i :: 0 <= i < |k| ==> k[i] <= k[m]
    ensures forall i :: 0 <= i < m ==> k[i] < k[m]
  {
    var n := |k| - 1;
    if n == 0 then 0
    else
      var m := FirstMax(k[..n]);
      assert forall i :: 0 <= i < n ==> k[i] == k[..n][i];
      if k[n] > k[m] then n else m
  }

  lemma FirstMaxUnique(k: seq<int>, m: nat)
    requires m < |k| && (forall i :: 0 <= i < |k| ==> k[i] <= k[m]) && forall i :: 0 <= i < m ==> k[i] < k[m]
    ensures m == FirstMax(k)
  {
  }

  datatype Item<T> = Item(value: T, key: int)

  function Keys<T>(s: seq<Item<T>>): (k: seq<int>)
    ensures |k| == |s| && forall i :: 0 <= i < |s| ==> k[i] == s[i].key
  {
    seq(|s|, i requires 0 <= i < |s| => s[i].key)
  }

  function Without<T>(s: seq<T>, i: nat): (r: seq<T>)
    requires i < |s|
    ensures |r| == |s| - 1
  {
    s[..i] + s[i + 1..]
  }

  /** Take out the first largest, again and again. */
  function Selected<T>(s: seq<Item<T>>): (r: seq<Item<T>>)
    ensures |r| == |s|
    decreases |s|
  {
    if s == [] then []
    else
      var m := FirstMax(Keys(s));
      [s[m]] + Selected(Without(s, m))
  }

  /** The items with key v, in order. */
  function WithKey<T>(s: seq<Item<T>>, v: int): (r: seq<Item<T>>)
    ensures forall i :: 0 <= i < |r| ==> r[i].key == v
  {
    if s == [] then [] else (if s[0].key == v then [s[0]] else []) + WithKey(s[1..], v)
  }

  predicate Falling<T>(s: seq<Item<T>>) {
    forall i, j :: 0 <= i < j < |s| ==> s[i].key >= s[j].key
  }

  lemma {:induction false} WithKeySplit<T>(a: seq<Item<T>>, b: seq<Item<T>>, v: int)
    ensures WithKey(a + b, v) == WithKey(a, v) + WithKey(b, v)
  {
    if a == [] {
      assert a + b == b;
    } else {
      assert (a + b)[1..] == a[1..] + b;
      WithKeySplit(a[1..], b, v);
    }
  }

  lemma {:induction false} WithKeyNone<T>(s: seq<Item<T>>, v: int)
    ensures WithKey(s, v) == [] <==> forall i :: 0 <= i < |s| ==> s[i].key != v
  {
    if s != [] {
      WithKeyNone(s[1..], v);
      assert forall i :: 1 <= i < |s| ==> s[i] == s[1..][i - 1];
    }
  }

  lemma WithKeyFirst<T>(s: seq<Item<T>>, v: int)
    requires s != []
    ensures s[0].key == v ==> WithKey(s, v) == [s[0]] + WithKey(s[1..], v)
    ensures s[0].key != v ==> WithKey(s, v) == WithKey(s[1..], v)
  {
  }

  /** Moving the first item of its key to the front keeps the order within every key. */
  lemma TakeOutFirst<T>(a: seq<Item<T>>, x: Item<T>, b: seq<Item<T>>, t: seq<Item<T>>, v: int)
    requires forall i :: 0 <= i < |a| ==> a[i].key != x.key
    requires WithKey(t, v) == WithKey(a + b, v)
    ensures WithKey([x] + t, v) == WithKey(a + ([x] + b), v)
  {
    hide *;
    WithKeySplit(a, [x] + b, v);
    WithKeySplit(a, b, v);
    WithKeyFirst([x] + b, v);
    WithKeyFirst([x] + t, v);
    assert ([x] + b)[1..] == b && ([x] + t)[1..] == t;
    if x.key == v {
      WithKeyNone(a, v);
      assert WithKey(a, v) == [];
    }
  }

  lemma SelectedStep<T>(s: seq<Item<T>>) returns (a: seq<Item<T>>, x: Item<T>, b: seq<Item<T>>)
    requires s != []
    ensures s == a + ([x] + b) && |a + b| < |s| && Selected(s) == [x] + Selected(a + b)
    ensures forall i :: 0 <= i < |a| ==> a[i].key != x.key
  {
    hide Selected;
    var m := FirstMax(Keys(s));
    a, x, b := s[..m], s[m], s[m + 1..];
    assert Without(s, m) == a + b;
    SelectedIs(s);
  }

  lemma SelectedIs<T>(s: seq<Item<T>>)
    requires s != []
    ensures var m := FirstMax(Keys(s)); Selected(s) == [s[m]] + Selected(Without(s, m))
  {
  }

  /** For every key the same items come in the same order: nothing is lost or repeated,
      and ties keep their order. */
  lemma {:induction false} SelectedStable<T>(s: seq<Item<T>>, v: int)
    ensures WithKey(Selected(s), v) == WithKey(s, v)
    decreases |s|
  {
    if s != [] {
      hide *;
      var a, x, b := SelectedStep(s);
      SelectedStable(a + b, v);
      TakeOutFirst(a, x, b, Selected(a + b), v);
    }
  }

  lemma SelectedKeys<T>(s: seq<Item<T>>, j: nat, most: int)
    requires j < |s| && forall i :: 0 <= i < |s| ==> s[i].key <= most
    ensures Selected(s)[j].key <= most
  {
    var v := Selected(s)[j].key;
    WithKeyNone(Selected(s), v);
    SelectedStable(s, v);
    WithKeyNone(s, v);
  }

  lemma {:induction false} SelectedFalls<T>(s: seq<Item<T>>)
    ensures Falling(Selected(s))
    decreases |s|
  {
    if s != [] {
      var m := FirstMax(Keys(s));
      var t := Without(s, m);
      SelectedFalls(t);
      forall j | 0 <= j < |t|
        ensures Selected(t)[j].key <= s[m].key
      {
        SelectedKeys(t, j, s[m].key);
      }
    }
  }

  /** Order and the items of each key determine the sequence: there is only one stable
      sort. */
  lemma {:induction false} StableUnique<T>(a: seq<Item<T>>, b: seq<Item<T>>)
    requires Falling(a) && Falling(b) && forall v :: WithKey(a, v) == WithKey(b, v)
    ensures a == b
    decreases |a|
  {
    if a == [] || b == [] {
      if a != [] {
        WithKeyNone(a, a[0].key);
        WithKeyNone(b, a[0].key);
      } else if b != [] {
        WithKeyNone(a, b[0].key);
        WithKeyNone(b, b[0].key);
      }
    } else {
      SameFirstKey(a, b);
      SameFirstKey(b, a);
      hide WithKey;
      var v0 := a[0].key;
      WithKeyFirst(a, v0);
      WithKeyFirst(b, v0);
      assert WithKey(a, v0)[0] == a[0] && WithKey(b, v0)[0] == b[0];
      forall v
        ensures WithKey(a[1..], v) == WithKey(b[1..], v)
      {
        WithKeyFirst(a, v);
        WithKeyFirst(b, v);
        assert WithKey(a, v) == WithKey(b, v);
        if v == v0 {
          assert WithKey(a, v)[1..] == WithKey(a[1..], v) && WithKey(b, v)[1..] == WithKey(b[1..], v);
        }
      }
      StableUnique(a[1..], b[1..]);
    }
  }

  lemma SameFirstKey<T>(a: seq<Item<T>>, b: seq<Item<T>>)
    requires a != [] && b != [] && Falling(b) && forall v :: WithKey(a, v) == WithKey(b, v)
    ensures a[0].key <= b[0].key
  {
    var v := a[0].key;
    WithKeyNone(a, v);
    assert WithKey(a, v) == WithKey(b, v);
    WithKeyNone(b, v);
  }
}
