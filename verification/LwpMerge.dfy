/** The threads of a process: refreshing the id-sorted array against the reported ids. */
module LwpMerge {
  import opened Basics
  import opened Libc

  class Lwp {
    const id: int
    var refCount: int
    var removing: bool
    ghost var freed: bool
    ghost var freeCalls: nat

    /** As it is allocated: a zeroed thread that is not marked, with no references. */
    ghost predicate AsNew()
      reads this
    {
      refCount == 0 && !removing && !freed && freeCalls == 0
    }

    constructor (id: int)
      ensures this.id == id && AsNew()
    {
      this.id := id;
      refCount, removing, freed, freeCalls := 0, false, false, 0;
    }

    /** `lwp_free`: deferred while references are held. */
    method Free() returns (ok: bool)
      modifies `removing, `freed, `freeCalls
      ensures freeCalls == old(freeCalls) + 1 && ok == (refCount <= 0)
      ensures removing == (old(removing) || refCount > 0) && freed == (old(freed) || refCount <= 0)
    {
      freeCalls := freeCalls + 1;
      if refCount > 0 {
        removing := true;
        return false;
      }
      freed := true;
      return true;
    }
  }

  predicate ById(s: seq<Lwp>) {
    forall i, j :: 0 <= i < j < |s| ==> s[i].id < s[j].id
  }

  /** What a refresh did to thread `l` of the old list. */
  twostate predicate Refreshed(l: Lwp, gone: bool)
    reads l
  {
    && l.freeCalls == old(l.freeCalls) + (if gone then 1 else 0)
    && l.removing == (old(l.removing) || (gone && l.refCount > 0))
    && l.freed == (old(l.freed) || (gone && l.refCount <= 0))
  }

  /** After i reported ids and j old threads the merge has placed the first i, reusing
      objects, and neither side has anything left below what the other has done. */
  predicate Merged(a: seq<Lwp>, now: seq<int>, was: seq<Lwp>, i: nat, j: nat) {
    && |a| == i <= |now| && j <= |was|
    && (forall k :: 0 <= k < i ==> a[k].id == now[k])
    && (forall m :: 0 <= m < j && was[m].id in now ==> was[m] in a)
    && (forall k, m :: 0 <= k < i && j <= m < |was| ==> now[k] < was[m].id)
    && (forall k, m :: i <= k < |now| && 0 <= m < j ==> was[m].id < now[k])
  }

  lemma MergeKeep(a: seq<Lwp>, now: seq<int>, was: seq<Lwp>, i: nat, j: nat)
    requires Merged(a, now, was, i, j) && ById(was) && StrictlySorted(now)
    requires i < |now| && j < |was| && now[i] == was[j].id
    ensures Merged(a + [was[j]], now, was, i + 1, j + 1) && was[j].id in now
  {
  }

  lemma MergeNew(a: seq<Lwp>, now: seq<int>, was: seq<Lwp>, i: nat, j: nat, l: Lwp)
    requires Merged(a, now, was, i, j) && ById(was) && StrictlySorted(now)
    requires i < |now| && (j < |was| ==> now[i] < was[j].id) && l.id == now[i]
    ensures Merged(a + [l], now, was, i + 1, j)
  {
  }

  lemma MergeDrop(a: seq<Lwp>, now: seq<int>, was: seq<Lwp>, i: nat, j: nat)
    requires Merged(a, now, was, i, j) && ById(was) && StrictlySorted(now)
    requires j < |was| && (i < |now| ==> was[j].id < now[i])
    ensures Merged(a, now, was, i, j + 1) && was[j].id !in now
  {
    forall k | 0 <= k < |now|
      ensures now[k] != was[j].id
    {
      assert k > i ==> now[i] < now[k];
    }
  }

  lemma MergeEnds(a: seq<Lwp>, now: seq<int>, was: seq<Lwp>)
    requires Merged(a, now, was, |now|, |was|) && StrictlySorted(now)
    ensures ById(a) && |a| == |now|
    ensures forall x :: HasId(a, x) <==> x in now
    ensures forall m :: 0 <= m < |was| && was[m].id in now ==> was[m] in a
  {
    forall x | x in now
      ensures HasId(a, x)
    {
      var k :| 0 <= k < |now| && now[k] == x;
      assert a[k].id == x;
    }
  }

  predicate HasId(s: seq<Lwp>, x: int) {
    exists k :: 0 <= k < |s| && s[k].id == x
  }

  class LwpList {
    var idArr: seq<Lwp>

    constructor ()
      ensures idArr == []
    {
      idArr := [];
    }

    /** The ids left after the merge get new threads. */
    method AllocRest(head: seq<Lwp>, now: seq<int>, ghost was: seq<Lwp>, ghost j: nat) returns (arr: seq<Lwp>)
      requires Merged(head, now, was, |head|, j) && ById(was) && StrictlySorted(now)
      requires |head| < |now| ==> j == |was|
      ensures Merged(arr, now, was, |now|, j)
      ensures forall k :: 0 <= k < |arr| ==> arr[k] in head || (fresh(arr[k]) && arr[k].AsNew())
    {
      hide Merged, ById;
      MergedSizes(head, now, was, |head|, j);
      arr := head;
      for i := |head| to |now|
        invariant Merged(arr, now, was, i, j)
        invariant forall k :: 0 <= k < |arr| ==> arr[k] in head || (fresh(arr[k]) && arr[k].AsNew())
      {
        var lwp := new Lwp(now[i]);
        MergeNew(arr, now, was, i, j, lwp);
        arr := arr + [lwp];
      }
    }

    /** The old threads left after the merge are freed. */
    method FreeRest(ghost arr: seq<Lwp>, ghost now: seq<int>, was: seq<Lwp>, from: nat)
      requires Merged(arr, now, was, |now|, from) && ById(was) && StrictlySorted(now)
      modifies was`removing, was`freed, was`freeCalls
      ensures Merged(arr, now, was, |now|, |was|)
      ensures forall m :: 0 <= m < |was| ==> Refreshed(was[m], from <= m && was[m].id !in now)
    {
      hide Merged;
      MergedSizes(arr, now, was, |now|, from);
      for j := from to |was|
        invariant Merged(arr, now, was, |now|, j)
        invariant forall m :: 0 <= m < |was| ==> Refreshed(was[m], from <= m < j && was[m].id !in now)
      {
        MergeDrop(arr, now, was, |now|, j);
        var _ := was[j].Free();
      }
    }

    /** The merge proper, until one side runs out. */
    method Merge(now: seq<int>, was: seq<Lwp>) returns (arr: seq<Lwp>, i: nat, j: nat)
      requires ById(was) && StrictlySorted(now)
      modifies was`removing, was`freed, was`freeCalls
      ensures Merged(arr, now, was, i, j) && (i == |now| || j == |was|)
      ensures forall k :: 0 <= k < |arr| ==> arr[k] in was || (fresh(arr[k]) && arr[k].AsNew())
      ensures forall m :: 0 <= m < |was| ==> Refreshed(was[m], m < j && was[m].id !in now)
    {
      hide Merged;
      MergeStart(now, was);
      arr, i, j := [], 0, 0;
      while i < |now| && j < |was|
        invariant 0 <= i <= |now| && 0 <= j <= |was| && Merged(arr, now, was, i, j)
        invariant forall k :: 0 <= k < |arr| ==> arr[k] in was || (fresh(arr[k]) && arr[k].AsNew())
        invariant forall m :: 0 <= m < |was| ==> Refreshed(was[m], m < j && was[m].id !in now)
        decreases |now| - i + |was| - j
      {
        if now[i] == was[j].id {
          MergeKeep(arr, now, was, i, j);
          arr := arr + [was[j]];
          i := i + 1;
          j := j + 1;
        } else if now[i] < was[j].id {
          var lwp := new Lwp(now[i]);
          MergeNew(arr, now, was, i, j, lwp);
          arr := arr + [lwp];
          i := i + 1;
        } else {
          MergeDrop(arr, now, was, i, j);
          var _ := was[j].Free();
          j := j + 1;
        }
      }
    }

    /** `lwp_enum_update` merges the sorted reported ids with the sorted array: afterwards
        it holds exactly the reported ids, the old object wherever there was one, and
        `lwp_free` was called once on each thread that vanished and on no other. */
    method EnumUpdate(reported: seq<int>)
      requires ById(idArr) && Distinct(reported)
      modifies this, idArr`removing, idArr`freed, idArr`freeCalls
      ensures ById(idArr) && |idArr| == |reported|
      ensures forall x :: HasId(idArr, x) <==> x in reported
      ensures forall l :: l in old(idArr) && l.id in reported ==> l in idArr
      ensures forall l :: l in idArr ==> l in old(idArr) || (fresh(l) && l.AsNew())
      ensures forall l :: l in old(idArr) ==> Refreshed(l, l.id !in reported)
    {
      hide Merged, Qsort;
      var now := Qsort(reported);
      QsortDistinct(reported);
      var was := idArr;
      var arr, i, j := Merge(now, was);
      MergedSizes(arr, now, was, i, j);
      arr := AllocRest(arr, now, was, j);
      FreeRest(arr, now, was, j);
      MergeEnds(arr, now, was);
      idArr := arr;
    }
  }

  lemma MergedSizes(a: seq<Lwp>, now: seq<int>, was: seq<Lwp>, i: nat, j: nat)
    requires Merged(a, now, was, i, j)
    ensures |a| == i <= |now| && j <= |was|
  {
  }

  lemma MergeStart(now: seq<int>, was: seq<Lwp>)
    ensures Merged([], now, was, 0, 0)
  {
  }
}
