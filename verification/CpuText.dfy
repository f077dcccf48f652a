/**
 The text showing a node's CPUs, from its table of slots.
 */
module CpuText {
  import opened Basics
  import opened Libc
  import opened CpuRange
  import CpuSlots

  type Slot = CpuSlots.Slot

  predicate Usable(c: Slot) {
    c.cpuid != INVALID_CPUID && !c.hotremove
  }

  /** The ids of the usable slots, in order. */
  function AllUsable(s: seq<Slot>): seq<int> {
    if s == [] then [] else (if Usable(s[0]) then [s[0].cpuid] else []) + AllUsable(s[1..])
  }

  /** The ids collected from the slots, at most `num`. */
  function Collected(s: seq<Slot>, num: nat): (ids: seq<int>)
    ensures |ids| <= num
  {
    if s == [] || num == 0 then []
    else if Usable(s[0]) then [s[0].cpuid] + Collected(s[1..], num - 1)
    else Collected(s[1..], num)
  }

  function Zeros(n: nat): (z: seq<int>)
    ensures |z| == n && forall i :: 0 <= i < n ==> z[i] == 0
  {
    seq(n, _ => 0)
  }

  /** The array that is sorted and printed: it has the node's CPU count of entries, zero
      where no id was collected. */
  function Filled(s: seq<Slot>, num: nat): (ids: seq<int>)
    ensures |ids| == num
  {
    Collected(s, num) + Zeros(num - |Collected(s, num)|)
  }

  /** `node_cpu_string` */
  method NodeCpuString(node: CpuSlots.Node) returns (text: seq<Piece>)
    ensures node.ncpus > 0 ==> Qsort(Filled(node.cpus[..], node.ncpus)) != []
    ensures text == if node.ncpus == 0 then [Dash] else Joined(Compress(Qsort(Filled(node.cpus[..], node.ncpus))))
  {
    hide Filled, Collected, Compress, Joined, Qsort;
    if node.ncpus == 0 {
      return [Dash];
    }
    var arr := Collect(node);
    text := PrintRanges(arr[..]);
  }

  /** Its loop over the slots. */
  method Collect(node: CpuSlots.Node) returns (arr: array<int>)
    ensures arr[..] == Filled(node.cpus[..], node.ncpus)
  {
    hide Usable, Collected, Zeros;
    arr := new int[node.ncpus](_ => 0);
    ghost var s, n, got := node.cpus[..], node.ncpus, [];
    var i, j := 0, 0;
    assert s[0..] == s;
    while i < node.cpus.Length && j < node.ncpus
      invariant 0 <= i <= |s| && 0 <= j <= n == arr.Length == node.ncpus && node.cpus[..] == s
      invariant |got| == j && got + Collected(s[i..], n - j) == Collected(s, n)
      invariant forall k :: 0 <= k < n ==> arr[k] == if k < j then got[k] else 0
    {
      CollectStep(s, i, n - j);
      if Usable(node.cpus[i]) {
        arr[j] := node.cpus[i].cpuid;
        got := got + [s[i].cpuid];
        j := j + 1;
      }
      i := i + 1;
    }
    CollectEnd(s, i, n - j);
    assert arr[..] == got + Zeros(n - j);
  }

  lemma CollectStep(s: seq<Slot>, i: nat, num: nat)
    requires i < |s| && num > 0
    ensures Collected(s[i..], num) == if Usable(s[i]) then [s[i].cpuid] + Collected(s[i + 1..], num - 1) else Collected(s[i + 1..], num)
  {
    assert s[i..][1..] == s[i + 1..];
  }

  lemma CollectEnd(s: seq<Slot>, i: nat, num: nat)
    requires i == |s| || (i <= |s| && num == 0)
    ensures Collected(s[i..], num) == []
  {
  }

  // ---------------------------------------------------------------------------
  // What it shows after a refresh

  /** All usable ids are collected, or as many of the first as there are entries. */
  lemma {:induction false} CollectedAll(s: seq<Slot>, num: nat)
    ensures Collected(s, num) == if |AllUsable(s)| <= num then AllUsable(s) else AllUsable(s)[..num]
  {
    if s != [] && num > 0 {
      CollectedAll(s[1..], if Usable(s[0]) then num - 1 else num);
    }
  }

  lemma {:induction false} UsableIds(s: seq<Slot>, id: int)
    ensures id in AllUsable(s) <==> exists i :: 0 <= i < |s| && s[i].cpuid == id && Usable(s[i])
  {
    if s != [] {
      UsableIds(s[1..], id);
      if i :| 0 <= i < |s| && s[i].cpuid == id && Usable(s[i]) {
        assert i > 0 ==> s[1..][i - 1] == s[i];
      }
      if i :| 0 <= i < |s[1..]| && s[1..][i].cpuid == id && Usable(s[1..][i]) {
        assert s[i + 1] == s[1..][i];
      }
    }
  }

  lemma {:induction false} UsableDistinct(s: seq<Slot>)
    requires CpuSlots.DistinctSlots(s)
    ensures Distinct(AllUsable(s))
  {
    if s != [] {
      UsableDistinct(s[1..]);
      UsableIds(s[1..], s[0].cpuid);
      assert Usable(s[0]) ==> s[0].cpuid !in AllUsable(s[1..]);
      DistinctFront(s[0].cpuid, AllUsable(s[1..]));
    }
  }

  lemma DistinctFront(x: int, ids: seq<int>)
    requires Distinct(ids)
    ensures x !in ids ==> Distinct([x] + ids)
  {
  }

  /** The reported CPUs that still await an earlier removal. */
  function Waiting(s: seq<Slot>, ids: seq<int>): set<int> {
    set i | 0 <= i < |s| && s[i].hotremove && s[i].cpuid in ids :: s[i].cpuid
  }

  /** After a successful refresh the usable slots are those of the reported CPUs, but for
      the waiting ones. */
  lemma UsableAfter(s: seq<Slot>, ids: seq<int>, init: bool, id: int)
    requires CpuSlots.Ok(s) && CpuSlots.Ids(ids) && CpuSlots.Refresh(s, ids, init).ok
    ensures id in AllUsable(CpuSlots.Refresh(s, ids, init).slots) <==> id in ids && id !in Waiting(s, ids)
  {
    var r := CpuSlots.Refresh(s, ids, init).slots;
    hide CpuSlots.Refresh, CpuSlots.Ok;
    UsableIds(r, id);
    RefreshedSlots(s, ids, init);
    if id in ids {
      var k :| 0 <= k < |ids| && ids[k] == id;
      assert CpuSlots.Has(r, ids[k]);
    }
    assert forall i, j :: 0 <= i < |r| && 0 <= j < |r| && r[i].cpuid == r[j].cpuid && r[i].cpuid in ids ==> i == j;
  }

  /** What a refresh makes of the slots. */
  lemma RefreshedSlots(s: seq<Slot>, ids: seq<int>, init: bool)
    requires CpuSlots.Ok(s) && CpuSlots.Ids(ids) && CpuSlots.Refresh(s, ids, init).ok
    ensures var r := CpuSlots.Refresh(s, ids, init).slots;
            && (forall i :: 0 <= i < |s| ==> (Usable(r[i]) <==> r[i].cpuid in ids && !s[i].hotremove))
            && (forall i :: 0 <= i < |s| && s[i].hotremove ==> r[i].cpuid == s[i].cpuid)
            && (forall j :: 0 <= j < |ids| ==> CpuSlots.Has(r, ids[j]))
            && CpuSlots.DistinctSlots(r)
  {
    var r := CpuSlots.Refresh(s, ids, init).slots;
    CpuSlots.RefreshSlots(s, ids, init);
    CpuSlots.DoKeeps(s, CpuSlots.Refreshing(ids, init));
    hide CpuSlots.Refresh;
    forall i | 0 <= i < |s|
      ensures (Usable(r[i]) <==> r[i].cpuid in ids && !s[i].hotremove) && (s[i].hotremove ==> r[i].cpuid == s[i].cpuid)
    {
      assert CpuSlots.Refreshed(s, s[i], r[i], ids, init);
    }
  }

  lemma FilledAfter(s: seq<Slot>, ids: seq<int>, init: bool)
    requires CpuSlots.Ok(s) && CpuSlots.Ids(ids) && Distinct(ids) && CpuSlots.Refresh(s, ids, init).ok
    ensures var r := CpuSlots.Refresh(s, ids, init).slots; var u := AllUsable(r);
            && Distinct(u) && Elements(u) == Elements(ids) - Waiting(s, ids) && Waiting(s, ids) <= Elements(ids)
            && |u| == |ids| - |Waiting(s, ids)| && Filled(r, |ids|) == u + Zeros(|ids| - |u|)
  {
    hide CpuSlots.Refresh, CpuSlots.Ok, Usable, AllUsable;
    var r := CpuSlots.Refresh(s, ids, init).slots;
    var u, w := AllUsable(r), Waiting(s, ids);
    RefreshedSlots(s, ids, init);
    UsableDistinct(r);
    forall id
      ensures id in u <==> id in ids && id !in w
    {
      UsableAfter(s, ids, init, id);
    }
    assert Elements(u) == Elements(ids) - w;
    DistinctSize(u);
    DistinctSize(ids);
    assert w <= Elements(ids);
    CollectedAll(r, |ids|);
  }

  /** After a successful refresh the ranges shown are those of the reported CPUs if and only
      if none of them, except CPU 0, was awaiting removal: for each that was a 0 is shown. */
  lemma ShownIff(s: seq<Slot>, ids: seq<int>, init: bool)
    requires CpuSlots.Ok(s) && CpuSlots.Ids(ids) && Distinct(ids) && ids != [] && CpuSlots.Refresh(s, ids, init).ok
    ensures var shown := Qsort(Filled(CpuSlots.Refresh(s, ids, init).slots, |ids|));
            shown != [] && (Expand(Compress(shown)) == Qsort(ids) <==> Waiting(s, ids) <= {0})
  {
    hide *;
    var u := AllUsable(CpuSlots.Refresh(s, ids, init).slots);
    FilledAfter(s, ids, init);
    ShowsSame(u, ids, Waiting(s, ids));
    RoundTrip(Qsort(u + Zeros(|ids| - |u|)));
  }

  /** The list printed is the ids if and only if nothing but 0 is missing, which the zero
      that fills its place makes good. */
  lemma ShowsSame(u: seq<int>, ids: seq<int>, w: set<int>)
    requires Distinct(u) && Distinct(ids) && Elements(u) == Elements(ids) - w && w <= Elements(ids) && |u| == |ids| - |w|
    ensures Qsort(u + Zeros(|ids| - |u|)) == Qsort(ids) <==> w <= {0}
  {
    hide Qsort, Distinct;
    var filled := u + Zeros(|ids| - |u|);
    QsortElements(filled);
    QsortElements(ids);
    QsortDistinct(ids);
    if x :| x in w && x != 0 {
      assert x in Elements(ids) && x !in Elements(u);
      assert x in Qsort(ids) && x !in Qsort(filled);
    } else {
      assert forall x :: x in w ==> x in {0};
      OneZero(u, ids, w);
      QsortDistinct(filled);
      assert Elements(Qsort(filled)) == Elements(filled) && Elements(Qsort(ids)) == Elements(ids);
      SortedSame(Qsort(filled), Qsort(ids));
    }
  }

  lemma OneZero(u: seq<int>, ids: seq<int>, w: set<int>)
    requires Distinct(u) && Elements(u) == Elements(ids) - w && w <= {0} && w <= Elements(ids) && |u| == |ids| - |w|
    ensures var filled := u + Zeros(|ids| - |u|); Distinct(filled) && Elements(filled) == Elements(ids)
  {
    if 0 in w {
      assert w == {0} && 0 !in Elements(u);
      assert u + Zeros(1) == u + [0];
      assert Elements(u + [0]) == Elements(u) + {0};
    } else {
      assert w == {} && u + Zeros(0) == u;
    }
  }
}
