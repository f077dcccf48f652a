/**
 The table of CPU slots of a node: refreshed from the CPU ids the system reports, cleaned
 up by the next traversal, summed over with an early exit.
 */
module CpuSlots {
  import opened Basics

  datatype Slot = Slot(cpuid: int, hit: bool, hotadd: bool, hotremove: bool)

  predicate Has(s: seq<Slot>, id: int) {
    exists i :: 0 <= i < |s| && s[i].cpuid == id
  }

  /** `cpu_find`: the first slot with the id, or -1. */
  function Find(s: seq<Slot>, id: int): (i: int)
    ensures -1 <= i < |s|
    ensures i >= 0 ==> s[i].cpuid == id && forall k :: 0 <= k < i ==> s[k].cpuid != id
    ensures i < 0 ==> !Has(s, id)
  {
    if s == [] then -1
    else
      var i := Find(s[..|s| - 1], id);
      if i >= 0 then i else if s[|s| - 1].cpuid == id then |s| - 1 else -1
  }

  /** `free_idx_get`: the preferred slot if free, else the first free one. */
  function FreeIdx(s: seq<Slot>, prefer: int): (i: int)
    ensures -1 <= i < |s| && (i >= 0 ==> s[i].cpuid == INVALID_CPUID)
    ensures i < 0 ==> !Has(s, INVALID_CPUID)
    ensures 0 <= prefer < |s| && s[prefer].cpuid == INVALID_CPUID ==> i == prefer
    ensures i >= 0 && i != prefer ==> forall k :: 0 <= k < i ==> s[k].cpuid != INVALID_CPUID
  {
    if 0 <= prefer < |s| && s[prefer].cpuid == INVALID_CPUID then prefer else Find(s, INVALID_CPUID)
  }

  predicate DistinctSlots(s: seq<Slot>) {
    forall i, j :: 0 <= i < j < |s| && s[i].cpuid != INVALID_CPUID ==> s[i].cpuid != s[j].cpuid
  }

  /** CPUs are in distinct slots, and only a slot with a CPU awaits removal. */
  predicate Ok(s: seq<Slot>) {
    DistinctSlots(s) && forall i :: 0 <= i < |s| && s[i].hotremove ==> s[i].cpuid != INVALID_CPUID
  }

  predicate Ids(ids: seq<int>) {
    forall k :: 0 <= k < |ids| ==> ids[k] >= 0
  }

  // ---------------------------------------------------------------------------
  // Refresh

  function ClearHits(s: seq<Slot>): (r: seq<Slot>)
    ensures |r| == |s| && forall i :: 0 <= i < |s| ==> r[i] == s[i].(hit := false)
  {
    seq(|s|, i requires 0 <= i < |s| => s[i].(hit := false))
  }

  datatype Admitted = Admitted(slots: seq<Slot>, ok: bool)

  /** One reported id: hit where it is, or placed in a free slot. */
  function AdmitOne(s: seq<Slot>, id: int, prefer: nat, init: bool): (r: Admitted)
    ensures |r.slots| == |s|
  {
    var i := Find(s, id);
    if i >= 0 then Admitted(s[i := s[i].(hit := true)], true)
    else
      var j := FreeIdx(s, prefer);
      if j < 0 then Admitted(s, false)
      else Admitted(s[j := s[j].(cpuid := id, hit := true, hotadd := !init)], true)
  }

  /** The ids from the k-th on; the first that finds no room ends it. */
  function Admit(s: seq<Slot>, ids: seq<int>, k: nat, init: bool): (r: Admitted)
    requires k <= |ids|
    ensures |r.slots| == |s|
    decreases |ids| - k
  {
    if k == |ids| then Admitted(s, true)
    else
      var a := AdmitOne(s, ids[k], k, init);
      if a.ok then Admit(a.slots, ids, k + 1, init) else a
  }

  function RetireSlot(c: Slot): Slot {
    if !c.hit && c.cpuid != INVALID_CPUID then c.(hotremove := true) else c
  }

  function Retire(s: seq<Slot>): (r: seq<Slot>)
    ensures |r| == |s| && forall i :: 0 <= i < |s| ==> r[i] == RetireSlot(s[i])
  {
    seq(|s|, i requires 0 <= i < |s| => RetireSlot(s[i]))
  }

  /** `os_perf_cpuarr_refresh` */
  function Refresh(s: seq<Slot>, ids: seq<int>, init: bool): (r: Admitted)
    ensures |r.slots| == |s|
  {
    var a := Admit(ClearHits(s), ids, 0, init);
    if a.ok then Admitted(Retire(a.slots), true) else a
  }

  // ---------------------------------------------------------------------------
  // Traversal

  /** `add`: the traversal has a function for hot-added CPUs. */
  function VisitSlot(c: Slot, add: bool): Slot {
    if c.hotremove then c.(hotremove := false, cpuid := INVALID_CPUID)
    else if c.hotadd && add then c.(hotadd := false)
    else c
  }

  /** The slots after the first k were visited. */
  function Visited(s: seq<Slot>, k: nat, add: bool): (r: seq<Slot>)
    requires k <= |s|
    ensures |r| == |s| && forall i :: 0 <= i < |s| ==> r[i] == if i < k then VisitSlot(s[i], add) else s[i]
  {
    seq(|s|, i requires 0 <= i < |s| => if i < k then VisitSlot(s[i], add) else s[i])
  }

  /** The CPUs in slots that are valid and not marked, in order. */
  function Running(s: seq<Slot>): seq<int> {
    if s == [] then []
    else
      var c := s[|s| - 1];
      Running(s[..|s| - 1]) + if c.cpuid != INVALID_CPUID && !c.hotadd then [c.cpuid] else []
  }

  lemma RunningNone()
    ensures Running([]) == []
  {
  }

  lemma RunningMore(s: seq<Slot>, c: Slot)
    ensures Running(s + [c]) == Running(s) + if c.cpuid != INVALID_CPUID && !c.hotadd then [c.cpuid] else []
  {
    assert (s + [c])[..|s|] == s;
  }

  // ---------------------------------------------------------------------------
  // What refresh keeps

  /** How a slot may change while ids are admitted: an occupied one is only hit, a free
      one may take a reported id, marked as hot-added unless this is the first refresh. */
  predicate Grew(c: Slot, d: Slot, ids: seq<int>, init: bool) {
    if c.cpuid != INVALID_CPUID then d == c.(hit := c.hit || c.cpuid in ids)
    else d == c || (d.cpuid in ids && d == c.(cpuid := d.cpuid, hit := true, hotadd := !init))
  }

  lemma AdmitOneGrew(s: seq<Slot>, id: int, prefer: nat, init: bool)
    requires Ok(s) && id >= 0
    ensures var a := AdmitOne(s, id, prefer, init);
            Ok(a.slots) && (a.ok ==> Has(a.slots, id) && forall i :: 0 <= i < |s| ==> Grew(s[i], a.slots[i], [id], init))
    ensures var a := AdmitOne(s, id, prefer, init); a.ok || a.slots == s
  {
    var a := AdmitOne(s, id, prefer, init);
    if a.ok {
      var i := if Find(s, id) >= 0 then Find(s, id) else FreeIdx(s, prefer);
      assert a.slots[i].cpuid == id;
    }
  }

  lemma GrewTwice(c: Slot, d: Slot, e: Slot, id: int, rest: seq<int>, init: bool)
    requires Grew(c, d, [id], init) && Grew(d, e, rest, init) && id != INVALID_CPUID
    ensures Grew(c, e, [id] + rest, init)
  {
  }

  /** Up to the point it stops, admission loses no CPU, moves none and marks none. */
  predicate Kept(s: seq<Slot>, r: seq<Slot>) {
    |r| == |s| && forall i :: 0 <= i < |s| && s[i].cpuid != INVALID_CPUID ==> r[i] == s[i].(hit := r[i].hit)
  }

  lemma {:induction false} AdmitGrew(s: seq<Slot>, ids: seq<int>, k: nat, init: bool)
    requires Ok(s) && Ids(ids) && k <= |ids|
    ensures var a := Admit(s, ids, k, init);
            && Ok(a.slots) && Kept(s, a.slots)
            && (a.ok ==> (forall i :: 0 <= i < |s| ==> Grew(s[i], a.slots[i], ids[k..], init)) && (forall j :: k <= j < |ids| ==> Has(a.slots, ids[j])))
    decreases |ids| - k
  {
    hide Find, FreeIdx, AdmitOne;
    if k < |ids| {
      AdmitOneGrew(s, ids[k], k, init);
      var a := AdmitOne(s, ids[k], k, init);
      if a.ok {
        AdmitGrew(a.slots, ids, k + 1, init);
        var r := Admit(a.slots, ids, k + 1, init);
        if r.ok {
          assert ids[k..] == [ids[k]] + ids[k + 1..];
          forall i | 0 <= i < |s|
            ensures Grew(s[i], r.slots[i], ids[k..], init)
          {
            GrewTwice(s[i], a.slots[i], r.slots[i], ids[k], ids[k + 1..], init);
          }
          var i :| 0 <= i < |s| && a.slots[i].cpuid == ids[k];
          assert r.slots[i].cpuid == ids[k];
        }
      }
    }
  }

  /** What a successful refresh makes of every slot. */
  predicate Refreshed(s: seq<Slot>, c: Slot, d: Slot, ids: seq<int>, init: bool) {
    if c.cpuid != INVALID_CPUID then d == c.(hit := c.cpuid in ids, hotremove := c.hotremove || c.cpuid !in ids)
    else if d.cpuid == INVALID_CPUID then d == c.(hit := false)
    else d == Slot(d.cpuid, true, !init, false) && d.cpuid in ids && !Has(s, d.cpuid)
  }

  /** A CPU that was there keeps its slot and its mark, and awaits removal exactly if it is
      not reported or did before; a free slot stays as it was or takes a reported CPU that
      had none, which is marked as hot-added exactly if this is not the first refresh. */
  lemma RefreshSlots(s: seq<Slot>, ids: seq<int>, init: bool)
    requires Ok(s) && Ids(ids) && Refresh(s, ids, init).ok
    ensures var r := Refresh(s, ids, init).slots;
            && (forall i :: 0 <= i < |s| ==> Refreshed(s, s[i], r[i], ids, init))
            && forall id :: id in ids ==> Has(r, id)
  {
    hide Admit;
    var t := ClearHits(s);
    assert Ok(t);
    AdmitGrew(t, ids, 0, init);
    assert ids[0..] == ids;
    var a, r := Admit(t, ids, 0, init).slots, Refresh(s, ids, init).slots;
    forall i | 0 <= i < |s|
      ensures Refreshed(s, s[i], r[i], ids, init)
    {
      assert Grew(t[i], a[i], ids, init);
      if s[i].cpuid == INVALID_CPUID && Has(s, r[i].cpuid) {
        var j :| 0 <= j < |s| && s[j].cpuid == r[i].cpuid;
        assert a[j].cpuid == t[j].cpuid || t[j].cpuid == INVALID_CPUID;
      }
    }
    forall id | id in ids
      ensures Has(r, id)
    {
      var k :| 0 <= k < |ids| && ids[k] == id;
      var i :| 0 <= i < |s| && a[i].cpuid == ids[k];
      assert r[i].cpuid == id;
    }
  }

  // ---------------------------------------------------------------------------
  // Runs of refreshes and traversals

  datatype Op = Refreshing(ids: seq<int>, init: bool) | Visiting(k: nat, add: bool)

  predicate Can(s: seq<Slot>, op: Op) {
    match op
    case Refreshing(ids, _) => Ids(ids)
    case Visiting(k, _) => k <= |s|
  }

  function Do(s: seq<Slot>, op: Op): (r: seq<Slot>)
    requires Can(s, op)
    ensures |r| == |s|
  {
    match op
    case Refreshing(ids, init) => Refresh(s, ids, init).slots
    case Visiting(k, add) => Visited(s, k, add)
  }

  ghost predicate CanAll(s: seq<Slot>, ops: seq<Op>)
    decreases ops
  {
    ops != [] ==> Can(s, ops[0]) && CanAll(Do(s, ops[0]), ops[1..])
  }

  ghost function DoAll(s: seq<Slot>, ops: seq<Op>): (r: seq<Slot>)
    requires CanAll(s, ops)
    ensures |r| == |s|
    decreases ops
  {
    if ops == [] then s else DoAll(Do(s, ops[0]), ops[1..])
  }

  /** The CPU is in the table after every step. */
  ghost predicate Throughout(s: seq<Slot>, ops: seq<Op>, id: int)
    requires CanAll(s, ops)
    decreases ops
  {
    Has(s, id) && (ops != [] ==> Throughout(Do(s, ops[0]), ops[1..], id))
  }

  /** A refresh, even one that runs out of slots, keeps CPUs distinct and in place. */
  lemma DoKeeps(s: seq<Slot>, op: Op)
    requires Ok(s) && Can(s, op)
    ensures Ok(Do(s, op))
    ensures op.Refreshing? ==> forall i :: 0 <= i < |s| && s[i].cpuid != INVALID_CPUID ==> Do(s, op)[i].cpuid == s[i].cpuid
    ensures op.Visiting? ==> forall i :: 0 <= i < |s| ==> Do(s, op)[i].cpuid == s[i].cpuid || Do(s, op)[i].cpuid == INVALID_CPUID
  {
    hide Admit;
    if op.Refreshing? {
      assert Ok(ClearHits(s));
      AdmitGrew(ClearHits(s), op.ids, 0, op.init);
    }
  }

  lemma {:induction false} RunKeepsOk(s: seq<Slot>, ops: seq<Op>)
    requires Ok(s) && CanAll(s, ops)
    ensures Ok(DoAll(s, ops))
    decreases ops
  {
    hide Ok, Do;
    if ops != [] {
      DoKeeps(s, ops[0]);
      RunKeepsOk(Do(s, ops[0]), ops[1..]);
    }
  }

  /** Over any run, a CPU that never leaves the table never leaves its slot. */
  lemma {:induction false} StaysPut(s: seq<Slot>, ops: seq<Op>, i: nat)
    requires Ok(s) && CanAll(s, ops) && i < |s| && s[i].cpuid != INVALID_CPUID && Throughout(s, ops, s[i].cpuid)
    ensures DoAll(s, ops)[i].cpuid == s[i].cpuid
    decreases ops
  {
    if ops != [] {
      DoKeeps(s, ops[0]);
      var r := Do(s, ops[0]);
      assert Has(r, s[i].cpuid);
      var j :| 0 <= j < |r| && r[j].cpuid == s[i].cpuid;
      SamePlace(s, ops[0], i, j);
      StaysPut(r, ops[1..], i);
    }
  }

  /** A step puts an id that was in the table nowhere but where it was. */
  lemma SamePlace(s: seq<Slot>, op: Op, i: nat, j: nat)
    requires Ok(s) && Can(s, op) && i < |s| && j < |s| && s[i].cpuid == Do(s, op)[j].cpuid != INVALID_CPUID
    ensures i == j
  {
    hide Do;
    DoKeeps(s, op);
  }

  // ---------------------------------------------------------------------------
  // Setting up what was hot-added

  /** The step calls the hot-add function on slot i. */
  predicate SetsUp(s: seq<Slot>, op: Op, i: nat) {
    op.Visiting? && op.add && i < op.k && i < |s| && s[i].hotadd && !s[i].hotremove
  }

  ghost function SetUps(s: seq<Slot>, ops: seq<Op>, i: nat): nat
    requires CanAll(s, ops)
    decreases ops
  {
    if ops == [] then 0 else (if SetsUp(s, ops[0], i) then 1 else 0) + SetUps(Do(s, ops[0]), ops[1..], i)
  }

  /** Some traversal with a hot-add function gets past slot i. */
  predicate Reaches(ops: seq<Op>, i: nat) {
    exists j :: 0 <= j < |ops| && ReachedBy(ops[j], i)
  }

  predicate ReachedBy(op: Op, i: nat) {
    op.Visiting? && op.add && i < op.k
  }

  lemma DoMarks(s: seq<Slot>, op: Op, i: nat)
    requires Ok(s) && Can(s, op) && i < |s| && s[i].cpuid != INVALID_CPUID && Do(s, op)[i].cpuid == s[i].cpuid
    ensures Do(s, op)[i].hotadd == (s[i].hotadd && !ReachedBy(op, i))
    ensures SetsUp(s, op, i) <==> s[i].hotadd && ReachedBy(op, i)
  {
    hide Admit;
    if op.Refreshing? {
      assert Ok(ClearHits(s));
      AdmitGrew(ClearHits(s), op.ids, 0, op.init);
    }
  }

  /** While a CPU stays in the table it is set up once if it came in marked and some
      traversal gets to it, and otherwise never. */
  lemma {:induction false} SetUpOnce(s: seq<Slot>, ops: seq<Op>, i: nat)
    requires Ok(s) && CanAll(s, ops) && i < |s| && s[i].cpuid != INVALID_CPUID && Throughout(s, ops, s[i].cpuid)
    ensures SetUps(s, ops, i) == if s[i].hotadd && Reaches(ops, i) then 1 else 0
    ensures DoAll(s, ops)[i].hotadd == (s[i].hotadd && !Reaches(ops, i))
    decreases ops
  {
    hide Do, Ok, SetsUp, ReachedBy;
    if ops != [] {
      var r := Do(s, ops[0]);
      StaysHere(s, ops, i);
      DoMarks(s, ops[0], i);
      SetUpOnce(r, ops[1..], i);
      ReachesStep(ops, i);
    }
  }

  lemma StaysHere(s: seq<Slot>, ops: seq<Op>, i: nat)
    requires Ok(s) && CanAll(s, ops) && i < |s| && s[i].cpuid != INVALID_CPUID && Throughout(s, ops, s[i].cpuid) && ops != []
    ensures Ok(Do(s, ops[0])) && Do(s, ops[0])[i].cpuid == s[i].cpuid
  {
    hide Do;
    DoKeeps(s, ops[0]);
    var j :| 0 <= j < |s| && Do(s, ops[0])[j].cpuid == s[i].cpuid;
    SamePlace(s, ops[0], i, j);
  }

  lemma ReachesStep(ops: seq<Op>, i: nat)
    requires ops != []
    ensures Reaches(ops, i) <==> ReachedBy(ops[0], i) || Reaches(ops[1..], i)
  {
    hide ReachedBy;
    if Reaches(ops, i) {
      var j :| 0 <= j < |ops| && ReachedBy(ops[j], i);
      assert j > 0 ==> ReachedBy(ops[1..][j - 1], i);
    }
    if Reaches(ops[1..], i) {
      var j :| 0 <= j < |ops[1..]| && ReachedBy(ops[1..][j], i);
      assert ReachedBy(ops[j + 1], i);
    }
  }

  /** A CPU that comes with a refresh after the first, and stays, is set up by the first
      traversal with a hot-add function that gets to it, and never again; one that comes
      with the first refresh is never set up. */
  lemma AddedSetUpOnce(s: seq<Slot>, ids: seq<int>, init: bool, ops: seq<Op>, i: nat)
    requires Ok(s) && Ids(ids) && Refresh(s, ids, init).ok && i < |s| && s[i].cpuid == INVALID_CPUID
    requires var r := Refresh(s, ids, init).slots;
             r[i].cpuid != INVALID_CPUID && CanAll(r, ops) && Throughout(r, ops, r[i].cpuid)
    ensures SetUps(Refresh(s, ids, init).slots, ops, i) == if !init && Reaches(ops, i) then 1 else 0
  {
    RefreshSlots(s, ids, init);
    DoKeeps(s, Refreshing(ids, init));
    var r := Refresh(s, ids, init).slots;
    assert Refreshed(s, s[i], r[i], ids, init);
    hide Refresh;
    SetUpOnce(r, ops, i);
  }

  /** Only slots with a CPU are marked. */
  predicate NoneStale(s: seq<Slot>) {
    forall i :: 0 <= i < |s| && s[i].hotadd ==> s[i].cpuid != INVALID_CPUID
  }

  /** A step leaves an empty slot marked, so that a later traversal will set up nothing,
      exactly if it removes a CPU that was never set up. */
  lemma StaleIff(s: seq<Slot>, op: Op)
    requires Ok(s) && Can(s, op) && NoneStale(s)
    ensures NoneStale(Do(s, op)) <==>
            !(op.Visiting? && exists i :: 0 <= i < op.k && s[i].hotadd && s[i].hotremove)
  {
    hide Admit;
    var r := Do(s, op);
    if op.Refreshing? {
      assert Ok(ClearHits(s)) && NoneStale(ClearHits(s));
      AdmitNoneStale(ClearHits(s), op.ids, 0, op.init);
    } else if i :| 0 <= i < op.k && s[i].hotadd && s[i].hotremove {
      assert r[i].hotadd && r[i].cpuid == INVALID_CPUID;
    }
  }

  lemma {:induction false} AdmitNoneStale(s: seq<Slot>, ids: seq<int>, k: nat, init: bool)
    requires NoneStale(s) && Ids(ids) && k <= |ids|
    ensures NoneStale(Admit(s, ids, k, init).slots)
    decreases |ids| - k
  {
    if k < |ids| {
      var a := AdmitOne(s, ids[k], k, init);
      assert NoneStale(a.slots);
      if a.ok {
        AdmitNoneStale(a.slots, ids, k + 1, init);
      }
    }
  }

  // ---------------------------------------------------------------------------
  // A refresh followed by a traversal

  /** A reported CPU is in the table but still awaits an earlier removal. */
  predicate Pending(s: seq<Slot>, ids: seq<int>) {
    exists i :: 0 <= i < |s| && s[i].hotremove && s[i].cpuid in ids
  }

  /** The table after a successful refresh and a full traversal. */
  function Settled(s: seq<Slot>, ids: seq<int>, init: bool, add: bool): (r: seq<Slot>)
    ensures |r| == |s|
  {
    Visited(Refresh(s, ids, init).slots, |s|, add)
  }

  /** Which slots end up valid. */
  lemma SettledSlot(s: seq<Slot>, ids: seq<int>, init: bool, add: bool, i: nat)
    requires Ok(s) && Ids(ids) && Refresh(s, ids, init).ok && i < |s|
    ensures var c := Settled(s, ids, init, add)[i].cpuid;
            && (c != INVALID_CPUID ==> c in ids && !s[i].hotremove)
            && (s[i].cpuid in ids && !s[i].hotremove ==> c == s[i].cpuid)
            && (s[i].cpuid != INVALID_CPUID && s[i].hotremove ==> c == INVALID_CPUID)
            && (add && c != INVALID_CPUID ==> !Settled(s, ids, init, add)[i].hotadd)
  {
    RefreshSlots(s, ids, init);
    assert Refreshed(s, s[i], Refresh(s, ids, init).slots[i], ids, init);
    hide Refresh;
  }

  /** The valid slots are exactly the reported ids, if and only if no reported CPU was
      awaiting removal when the refresh came. */
  lemma SettledIff(s: seq<Slot>, ids: seq<int>, init: bool, add: bool)
    requires Ok(s) && Ids(ids) && Refresh(s, ids, init).ok
    ensures var r := Settled(s, ids, init, add);
            && (forall id :: id != INVALID_CPUID && Has(r, id) ==> id in ids)
            && ((forall id :: id in ids ==> Has(r, id)) <==> !Pending(s, ids))
  {
    hide Refresh, Settled;
    var r := Settled(s, ids, init, add);
    forall i | 0 <= i < |s|
      ensures r[i].cpuid != INVALID_CPUID ==> r[i].cpuid in ids
    {
      SettledSlot(s, ids, init, add, i);
    }
    if Pending(s, ids) {
      var i :| 0 <= i < |s| && s[i].hotremove && s[i].cpuid in ids;
      SettledLoses(s, ids, init, add, i);
    } else {
      forall id | id in ids
        ensures Has(r, id)
      {
        SettledHas(s, ids, init, add, id);
      }
    }
  }

  lemma SettledLoses(s: seq<Slot>, ids: seq<int>, init: bool, add: bool, i: nat)
    requires Ok(s) && Ids(ids) && Refresh(s, ids, init).ok && i < |s| && s[i].hotremove
    ensures !Has(Settled(s, ids, init, add), s[i].cpuid)
  {
    hide Admit;
    var r := Settled(s, ids, init, add);
    var f := Refresh(s, ids, init).slots;
    DoKeeps(s, Refreshing(ids, init));
    SettledSlot(s, ids, init, add, i);
    assert f[i].cpuid == s[i].cpuid;
    assert forall j :: 0 <= j < |s| && j != i ==> f[j].cpuid != f[i].cpuid;
  }

  lemma SettledHas(s: seq<Slot>, ids: seq<int>, init: bool, add: bool, id: int)
    requires Ok(s) && Ids(ids) && Refresh(s, ids, init).ok && !Pending(s, ids) && id in ids
    ensures Has(Settled(s, ids, init, add), id)
  {
    hide Admit;
    var a := Admit(ClearHits(s), ids, 0, init);
    assert Ok(ClearHits(s));
    AdmitGrew(ClearHits(s), ids, 0, init);
    var k :| 0 <= k < |ids| && ids[k] == id;
    assert ids[0..] == ids && Has(a.slots, ids[k]);
    var i :| 0 <= i < |s| && a.slots[i].cpuid == id;
    assert Grew(ClearHits(s)[i], a.slots[i], ids, init);
    assert Settled(s, ids, init, add)[i].cpuid == id;
  }

  function Of(cpuid: int, hit: bool, hotremove: bool): Slot {
    Slot(cpuid, hit, false, hotremove)
  }

  const EMPTY := [Of(INVALID_CPUID, false, false), Of(INVALID_CPUID, false, false)]

  /** CPU 7 comes, and goes. */
  const COME_AND_GONE := [Refreshing([7, 8], true), Visiting(2, true), Refreshing([8], true)]

  /** From an empty table of two slots a run leaves CPU 7 awaiting removal. If it is back at
      the next refresh, that succeeds and the traversal after it drops the CPU. */
  lemma PendingHappens()
    ensures CanAll(EMPTY, COME_AND_GONE)
    ensures var t := DoAll(EMPTY, COME_AND_GONE);
            Ok(t) && Pending(t, [7, 8]) && Refresh(t, [7, 8], true).ok && !Has(Settled(t, [7, 8], true, true), 7)
  {
    var s, t := [Of(7, true, false), Of(8, true, false)], [Of(7, false, true), Of(8, true, false)];
    FillsEmpty();
    RetiresSeven();
    var ops := COME_AND_GONE;
    assert ops[1..] == [ops[1], ops[2]] && [ops[1], ops[2]][1..] == [ops[2]] && [ops[2]][1..] == [];
    assert Do(EMPTY, ops[0]) == s && Do(s, ops[1]) == s && Do(s, ops[2]) == t;
    assert DoAll(t, []) == t;
    assert DoAll(s, [ops[2]]) == t;
    assert DoAll(s, [ops[1], ops[2]]) == t;
    assert t[0].hotremove && t[0].cpuid in [7, 8];
    SevenAgain();
    SettledLoses(t, [7, 8], true, true, 0);
  }

  /** CPU 8 is hot-added, and gone before it is set up. */
  const ADDED_AND_GONE := [Refreshing([8], false), Refreshing([], false), Visiting(2, true)]

  /** From an empty table a run leaves an empty slot marked, and the next traversal calls
      the hot-add function on it. */
  lemma StaleHappens()
    ensures CanAll(EMPTY, ADDED_AND_GONE) && NoneStale(EMPTY)
    ensures var t := DoAll(EMPTY, ADDED_AND_GONE);
            Ok(t) && !NoneStale(t) && t[0].cpuid == INVALID_CPUID && SetsUp(t, Visiting(2, true), 0)
  {
    var a, b := [Slot(8, true, true, false), EMPTY[1]], [Slot(8, false, true, true), EMPTY[1]];
    var c := [Slot(INVALID_CPUID, false, true, false), EMPTY[1]];
    var ops := ADDED_AND_GONE;
    AddsEight();
    assert ClearHits(a) == [Slot(8, false, true, false), EMPTY[1]] && Retire(ClearHits(a)) == b;
    assert Visited(b, 2, true) == c;
    assert ops[1..] == [ops[1], ops[2]] && [ops[1], ops[2]][1..] == [ops[2]] && [ops[2]][1..] == [];
    assert Do(EMPTY, ops[0]) == a && Do(a, ops[1]) == b && Do(b, ops[2]) == c;
    assert DoAll(c, []) == c;
    assert DoAll(b, [ops[2]]) == c;
    assert DoAll(a, [ops[1], ops[2]]) == c;
    assert c[0].hotadd;
  }

  lemma AddsEight()
    ensures Refresh(EMPTY, [8], false) == Admitted([Slot(8, true, true, false), EMPTY[1]], true)
  {
    var a := [Slot(8, true, true, false), EMPTY[1]];
    assert ClearHits(EMPTY) == EMPTY;
    FindIs(EMPTY, 8, 2);
    assert AdmitOne(EMPTY, 8, 0, false) == Admitted(a, true);
    assert Retire(a) == a;
  }

  lemma FillsEmpty()
    ensures Refresh(EMPTY, [7, 8], true) == Admitted([Of(7, true, false), Of(8, true, false)], true)
  {
    var a, b := [Of(7, true, false), EMPTY[1]], [Of(7, true, false), Of(8, true, false)];
    assert ClearHits(EMPTY) == EMPTY;
    FindIs(EMPTY, 7, 2);
    assert AdmitOne(EMPTY, 7, 0, true) == Admitted(a, true);
    FindIs(a, 8, 2);
    assert AdmitOne(a, 8, 1, true) == Admitted(b, true);
    assert Retire(b) == b;
  }

  lemma RetiresSeven()
    ensures Refresh([Of(7, true, false), Of(8, true, false)], [8], true) == Admitted([Of(7, false, true), Of(8, true, false)], true)
  {
    var s := [Of(7, true, false), Of(8, true, false)];
    var a, b := [Of(7, false, false), Of(8, false, false)], [Of(7, false, false), Of(8, true, false)];
    assert ClearHits(s) == a;
    FindIs(a, 8, 1);
    assert AdmitOne(a, 8, 0, true) == Admitted(b, true);
    assert Retire(b) == [Of(7, false, true), Of(8, true, false)];
  }

  lemma SevenAgain()
    ensures Refresh([Of(7, false, true), Of(8, true, false)], [7, 8], true) == Admitted([Of(7, true, true), Of(8, true, false)], true)
  {
    var s := [Of(7, false, true), Of(8, true, false)];
    var a, b, c := [s[0], Of(8, false, false)], [Of(7, true, true), Of(8, false, false)], [Of(7, true, true), Of(8, true, false)];
    assert ClearHits(s) == a;
    FindIs(a, 7, 0);
    assert AdmitOne(a, 7, 0, true) == Admitted(b, true);
    FindIs(b, 8, 1);
    assert AdmitOne(b, 8, 1, true) == Admitted(c, true);
    assert Retire(c) == c;
  }

  // ---------------------------------------------------------------------------
  // Room

  function Free(s: seq<Slot>): nat {
    if s == [] then 0 else Free(s[..|s| - 1]) + if s[|s| - 1].cpuid == INVALID_CPUID then 1 else 0
  }

  /** The reported ids that have no slot. */
  function Missing(s: seq<Slot>, ids: seq<int>): set<int> {
    set id | id in ids && !Has(s, id)
  }

  lemma {:induction false} FreeUpdate(s: seq<Slot>, i: nat, c: Slot)
    requires i < |s|
    ensures Free(s[i := c]) == Free(s) - (if s[i].cpuid == INVALID_CPUID then 1 else 0) + (if c.cpuid == INVALID_CPUID then 1 else 0)
  {
    var n := |s| - 1;
    if i < n {
      assert s[i := c][..n] == s[..n][i := c];
      FreeUpdate(s[..n], i, c);
    } else {
      assert s[i := c][..n] == s[..n];
    }
  }

  lemma {:induction false} FreeNone(s: seq<Slot>)
    ensures Free(s) == 0 <==> !Has(s, INVALID_CPUID)
  {
    if s != [] {
      var n := |s| - 1;
      FreeNone(s[..n]);
      if Has(s[..n], INVALID_CPUID) {
        var i :| 0 <= i < n && s[..n][i].cpuid == INVALID_CPUID;
        assert s[i].cpuid == INVALID_CPUID;
      }
      if Has(s, INVALID_CPUID) && s[n].cpuid != INVALID_CPUID {
        var i :| 0 <= i < |s| && s[i].cpuid == INVALID_CPUID;
        assert s[..n][i].cpuid == INVALID_CPUID;
      }
    }
  }

  lemma MissingStep(s: seq<Slot>, id: int, prefer: nat, init: bool, rest: seq<int>)
    requires Ok(s) && id >= 0 && AdmitOne(s, id, prefer, init).ok && Ids(rest)
    ensures Missing(AdmitOne(s, id, prefer, init).slots, rest) == Missing(s, [id] + rest) - {id}
  {
    var r := AdmitOne(s, id, prefer, init).slots;
    AdmitOneGrew(s, id, prefer, init);
    forall x | x >= 0
      ensures Has(r, x) <==> Has(s, x) || x == id
    {
      if Has(s, x) {
        var i :| 0 <= i < |s| && s[i].cpuid == x;
        assert r[i].cpuid == x;
      }
      if Has(r, x) {
        var i :| 0 <= i < |s| && r[i].cpuid == x;
        assert Grew(s[i], r[i], [id], init);
      }
    }
  }

  /** Every reported id finds a slot if and only if the free slots are enough for the
      ids that have none yet. */
  lemma {:induction false} AdmitRoomIff(s: seq<Slot>, ids: seq<int>, k: nat, init: bool)
    requires Ok(s) && Ids(ids) && k <= |ids|
    ensures Admit(s, ids, k, init).ok <==> |Missing(s, ids[k..])| <= Free(s)
    decreases |ids| - k
  {
    hide Has, Free, Ok, Missing;
    if k == |ids| {
      MissingNothing(s);
    } else {
      assert ids[k..] == [ids[k]] + ids[k + 1..];
      var a := AdmitOne(s, ids[k], k, init);
      AdmitOneRoom(s, ids[k], k, init, ids[k + 1..]);
      if a.ok {
        AdmitOneGrew(s, ids[k], k, init);
        AdmitRoomIff(a.slots, ids, k + 1, init);
      }
    }
  }

  lemma MissingNothing(s: seq<Slot>)
    ensures Missing(s, []) == {}
  {
  }

  lemma AdmitOneRoom(s: seq<Slot>, id: int, prefer: nat, init: bool, rest: seq<int>)
    requires Ok(s) && id >= 0 && Ids(rest)
    ensures var a := AdmitOne(s, id, prefer, init);
            if a.ok then |Missing(a.slots, rest)| - Free(a.slots) == |Missing(s, [id] + rest)| - Free(s)
            else Free(s) == 0 && |Missing(s, [id] + rest)| > 0
  {
    hide Ok;
    var a := AdmitOne(s, id, prefer, init);
    FreeNone(s);
    var m := Missing(s, [id] + rest);
    if Find(s, id) >= 0 {
      FreeUpdate(s, Find(s, id), s[Find(s, id)].(hit := true));
      assert id !in m;
    } else {
      assert ([id] + rest)[0] == id;
      assert id in m;
      if a.ok {
        var j := FreeIdx(s, prefer);
        FreeUpdate(s, j, s[j].(cpuid := id, hit := true, hotadd := !init));
      }
    }
    if a.ok {
      MissingStep(s, id, prefer, init, rest);
      assert m - {id} == Missing(a.slots, rest);
    }
  }

  lemma RefreshRoomIff(s: seq<Slot>, ids: seq<int>, init: bool)
    requires Ok(s) && Ids(ids)
    ensures Refresh(s, ids, init).ok <==> |Missing(s, ids)| <= Free(s)
  {
    hide Admit;
    var t := ClearHits(s);
    assert Ok(t) && ids[0..] == ids;
    AdmitRoomIff(t, ids, 0, init);
    SameFree(s, t);
    forall x | x >= 0
      ensures Has(s, x) <==> Has(t, x)
    {
      if Has(s, x) {
        var i :| 0 <= i < |s| && s[i].cpuid == x;
        assert t[i].cpuid == x;
      }
    }
    assert Missing(s, ids) == Missing(t, ids);
  }

  lemma {:induction false} SameFree(s: seq<Slot>, t: seq<Slot>)
    requires |s| == |t| && forall i :: 0 <= i < |s| ==> s[i].cpuid == t[i].cpuid
    ensures Free(s) == Free(t)
  {
    if s != [] {
      SameFree(s[..|s| - 1], t[..|t| - 1]);
    }
  }

  // ---------------------------------------------------------------------------
  // The sum over a node's CPUs

  function Full(s: seq<Slot>, v: int -> nat): nat {
    if s == [] then 0 else (if s[0].cpuid != INVALID_CPUID then v(s[0].cpuid) else 0) + Full(s[1..], v)
  }

  /** `countval_sum`: it stops once it has seen `num` CPUs. */
  function Early(s: seq<Slot>, num: nat, v: int -> nat): nat {
    if s == [] || num == 0 then 0
    else if s[0].cpuid != INVALID_CPUID then v(s[0].cpuid) + Early(s[1..], num - 1, v)
    else Early(s[1..], num, v)
  }

  function Valids(s: seq<Slot>): nat {
    if s == [] then 0 else (if s[0].cpuid != INVALID_CPUID then 1 else 0) + Valids(s[1..])
  }

  lemma {:induction false} EarlyEnough(s: seq<Slot>, num: nat, v: int -> nat)
    requires Valids(s) <= num
    ensures Early(s, num, v) == Full(s, v)
  {
    if s != [] {
      if num == 0 {
        EarlyEnough(s[1..], 0, v);
      } else {
        EarlyEnough(s[1..], if s[0].cpuid != INVALID_CPUID then num - 1 else num, v);
      }
    }
  }

  function One(id: int): nat { 1 }

  lemma {:induction false} EarlyShort(s: seq<Slot>, num: nat)
    requires Valids(s) > num
    ensures Early(s, num, One) < Full(s, One)
  {
    if num > 0 || s[0].cpuid == INVALID_CPUID {
      EarlyShort(s[1..], if s[0].cpuid != INVALID_CPUID then num - 1 else num);
    }
  }

  /** Stopping early loses nothing, whatever the counters, if and only if no more than
      `num` slots are valid. */
  lemma EarlyIff(s: seq<Slot>, num: nat)
    ensures (forall v: int -> nat :: Early(s, num, v) == Full(s, v)) <==> Valids(s) <= num
  {
    if Valids(s) <= num {
      forall v: int -> nat
        ensures Early(s, num, v) == Full(s, v)
      {
        EarlyEnough(s, num, v);
      }
    } else {
      EarlyShort(s, num);
      assert Early(s, num, One) != Full(s, One);
    }
  }

  function Cpus(s: seq<Slot>): set<int> {
    set c | c in s && c.cpuid != INVALID_CPUID :: c.cpuid
  }

  lemma {:induction false} ValidsIsSize(s: seq<Slot>)
    requires DistinctSlots(s)
    ensures Valids(s) == |Cpus(s)|
  {
    if s != [] {
      ValidsIsSize(s[1..]);
      if s[0].cpuid == INVALID_CPUID {
        assert Cpus(s) == Cpus(s[1..]);
      } else {
        assert s[0].cpuid !in Cpus(s[1..]);
        assert Cpus(s) == Cpus(s[1..]) + {s[0].cpuid};
      }
    }
  }

  lemma {:induction false} SizeOfIds(ids: seq<int>)
    ensures |set x | x in ids| <= |ids|
  {
    if ids != [] {
      SizeOfIds(ids[1..]);
      assert (set x | x in ids) == (set x | x in ids[1..]) + {ids[0]};
    }
  }

  lemma SubsetSize(a: set<int>, b: set<int>)
    requires a <= b
    ensures |a| <= |b|
  {
    assert b == a + (b - a);
  }

  /** After a refresh that sets the CPU count and a full traversal, the sum that stops at
      that count is the sum over all slots. */
  lemma SettledSum(s: seq<Slot>, ids: seq<int>, init: bool, add: bool, v: int -> nat)
    requires Ok(s) && Ids(ids) && Refresh(s, ids, init).ok
    ensures Early(Settled(s, ids, init, add), |ids|, v) == Full(Settled(s, ids, init, add), v)
  {
    hide Refresh, Settled;
    var r := Settled(s, ids, init, add);
    forall i | 0 <= i < |r|
      ensures r[i].cpuid != INVALID_CPUID ==> r[i].cpuid in ids
    {
      SettledSlot(s, ids, init, add, i);
    }
    SettledOk(s, ids, init, add);
    ValidsIsSize(r);
    SubsetSize(Cpus(r), set x | x in ids);
    SizeOfIds(ids);
    EarlyEnough(r, |ids|, v);
  }

  lemma SettledOk(s: seq<Slot>, ids: seq<int>, init: bool, add: bool)
    requires Ok(s) && Ids(ids)
    ensures Ok(Settled(s, ids, init, add))
  {
    hide Refresh, Ok;
    DoKeeps(s, Refreshing(ids, init));
    DoKeeps(Refresh(s, ids, init).slots, Visiting(|s|, add));
  }

  const SEVEN_AND_EIGHT := [Slot(7, false, false, false), Slot(8, false, false, false)]

  function OnlyEight(id: int): nat { if id == 8 then 1 else 0 }

  /** Between the refresh that retires a CPU and the traversal that frees its slot, the
      early exit can leave a reported CPU out. */
  lemma EarlyTooSoon()
    ensures var r := Refresh(SEVEN_AND_EIGHT, [8], false);
            r.ok && Early(r.slots, 1, OnlyEight) == 0 && Full(r.slots, OnlyEight) == 1
  {
    var s := SEVEN_AND_EIGHT;
    var t := ClearHits(s);
    assert s[..1] == [s[0]] && s[..1][..0] == [] && t[..1] == [t[0]] && t[..1][..0] == [];
    assert Find(t[..1], 8) == -1;
    assert Find(t, 8) == 1;
    var u := t[1 := t[1].(hit := true)];
    assert Admit(t, [8], 0, false) == Admit(u, [8], 1, false) == Admitted(u, true);
    var r := Retire(u);
    assert r[0].cpuid == 7 && r[1].cpuid == 8 && r[1..][1..] == [];
  }

  // ---------------------------------------------------------------------------
  // The code

  class Node {
    const cpus: array<Slot>
    var ncpus: nat

    constructor (max: nat)
      ensures fresh(cpus) && cpus.Length == max && Ok(cpus[..])
    {
      cpus := new Slot[max](_ => Slot(INVALID_CPUID, false, false, false));
      ncpus := 0;
    }

    method CpuFind(id: int) returns (i: int)
      ensures i == Find(cpus[..], id)
    {
      hide Find;
      i := 0;
      while i < cpus.Length
        invariant 0 <= i <= cpus.Length && forall k :: 0 <= k < i ==> cpus[k].cpuid != id
      {
        if cpus[i].cpuid == id {
          FindIs(cpus[..], id, i);
          return;
        }
        i := i + 1;
      }
      FindIs(cpus[..], id, i);
      i := -1;
    }

    method FreeIdxGet(prefer: int) returns (i: int)
      ensures i == FreeIdx(cpus[..], prefer)
    {
      if prefer >= 0 && prefer < cpus.Length {
        if cpus[prefer].cpuid == INVALID_CPUID {
          return prefer;
        }
      }
      i := CpuFind(INVALID_CPUID);
    }

    /** `os_perf_cpuarr_refresh` */
    method CpuArrRefresh(ids: seq<int>, init: bool) returns (ok: bool)
      modifies cpus
      ensures cpus[..] == Refresh(old(cpus[..]), ids, init).slots && ok == Refresh(old(cpus[..]), ids, init).ok
    {
      ghost var s := cpus[..];
      for i := 0 to cpus.Length
        invariant forall k :: 0 <= k < cpus.Length ==> cpus[k] == if k < i then s[k].(hit := false) else s[k]
      {
        cpus[i] := cpus[i].(hit := false);
      }
      assert cpus[..] == ClearHits(s);
      ok := AdmitAll(ids, init);
      if !ok {
        return;
      }
      ghost var t := cpus[..];
      for i := 0 to cpus.Length
        invariant forall k :: 0 <= k < cpus.Length ==> cpus[k] == if k < i then RetireSlot(t[k]) else t[k]
      {
        if !cpus[i].hit && cpus[i].cpuid != INVALID_CPUID {
          cpus[i] := cpus[i].(hotremove := true);
        }
      }
      assert cpus[..] == Retire(t);
    }

    /** Its loop over the reported ids. */
    method AdmitAll(ids: seq<int>, init: bool) returns (ok: bool)
      modifies cpus
      ensures cpus[..] == Admit(old(cpus[..]), ids, 0, init).slots && ok == Admit(old(cpus[..]), ids, 0, init).ok
    {
      hide Find, FreeIdx;
      ghost var want := Admit(cpus[..], ids, 0, init);
      var i := 0;
      while i < |ids|
        invariant 0 <= i <= |ids| && Admit(cpus[..], ids, i, init) == want
      {
        ghost var s := cpus[..];
        var c := CpuFind(ids[i]);
        if c < 0 {
          var j := FreeIdxGet(i);
          if j == -1 {
            return false;
          }
          cpus[j] := cpus[j].(cpuid := ids[i], hit := true, hotadd := !init);
          assert cpus[..] == AdmitOne(s, ids[i], i, init).slots;
        } else {
          cpus[c] := cpus[c].(hit := true);
          assert cpus[..] == AdmitOne(s, ids[i], i, init).slots;
        }
        i := i + 1;
      }
      return true;
    }

    /** `cpu_refresh`, for this node. */
    method CpuRefresh(ids: seq<int>, init: bool) returns (ok: bool)
      modifies cpus, this`ncpus
      ensures cpus[..] == Refresh(old(cpus[..]), ids, init).slots && ok == Refresh(old(cpus[..]), ids, init).ok
      ensures ncpus == if ok then |ids| else old(ncpus)
    {
      ok := CpuArrRefresh(ids, init);
      if ok {
        ncpus := |ids|;
      }
    }

    /** `node_cpu_traverse` within a node; `fails` says on which CPUs the callback fails. */
    method Traverse(add: bool, fails: int -> bool, errRet: bool) returns (k: nat, called: seq<int>)
      modifies cpus
      ensures k <= cpus.Length && cpus[..] == Visited(old(cpus[..]), k, add)
      ensures called == Running(cpus[..k])
      ensures k < cpus.Length ==> errRet && k > 0 && cpus[k - 1].cpuid != INVALID_CPUID && fails(cpus[k - 1].cpuid)
    {
      hide Running;
      ghost var s := cpus[..];
      RunningNone();
      k, called := 0, [];
      while k < cpus.Length
        invariant k <= cpus.Length && called == Running(cpus[..k])
        invariant forall i :: 0 <= i < cpus.Length ==> cpus[i] == if i < k then VisitSlot(s[i], add) else s[i]
      {
        var c := cpus[k];
        ghost var before := cpus[..k];
        if c.hotremove {
          cpus[k] := c.(hotremove := false, cpuid := INVALID_CPUID);
          k := k + 1;
          assert cpus[..k] == before + [cpus[k - 1]];
          RunningMore(before, cpus[k - 1]);
          continue;
        }
        if c.hotadd && add {
          cpus[k] := c.(hotadd := false);
        }
        k := k + 1;
        assert cpus[..k] == before + [cpus[k - 1]];
        RunningMore(before, cpus[k - 1]);
        if cpus[k - 1].cpuid != INVALID_CPUID && !cpus[k - 1].hotadd {
          called := called + [cpus[k - 1].cpuid];
          if fails(cpus[k - 1].cpuid) && errRet {
            return;
          }
        }
      }
    }

    /** `countval_sum` */
    method CountvalSum(v: int -> nat) returns (value: nat)
      ensures value == Early(cpus[..], ncpus, v)
    {
      value := 0;
      var num, i := 0, 0;
      while i < cpus.Length
        invariant 0 <= i <= cpus.Length && num <= ncpus
        invariant value + Early(cpus[i..], ncpus - num, v) == Early(cpus[..], ncpus, v)
      {
        if num >= ncpus {
          break;
        }
        assert cpus[i..][0] == cpus[i] && cpus[i..][1..] == cpus[i + 1..];
        if cpus[i].cpuid != INVALID_CPUID {
          value := value + v(cpus[i].cpuid);
          num := num + 1;
        }
        i := i + 1;
      }
    }

    /** A refresh that finds room, a full traversal, then the sum: it counts every CPU. */
    method RefreshedSum(ids: seq<int>, init: bool, v: int -> nat) returns (ok: bool, value: nat)
      requires Ok(cpus[..]) && Ids(ids)
      modifies cpus, this`ncpus
      ensures Ok(cpus[..]) && ok == (|Missing(old(cpus[..]), ids)| <= Free(old(cpus[..])))
      ensures ok ==> value == Full(cpus[..], v)
      ensures ok && !Pending(old(cpus[..]), ids) ==> forall id :: id != INVALID_CPUID ==> (Has(cpus[..], id) <==> id in ids)
    {
      hide *;
      ghost var s := cpus[..];
      ok := CpuRefresh(ids, init);
      RefreshRoomIff(s, ids, init);
      SettledOk(s, ids, init, true);
      var k, called := Traverse(true, _ => false, false);
      value := CountvalSum(v);
      if ok {
        SettledSum(s, ids, init, true, v);
        SettledIff(s, ids, init, true);
        SettledIs(s, ids, init, true);
      } else {
        SettledIs(s, ids, init, true);
      }
    }
  }

  lemma SettledIs(s: seq<Slot>, ids: seq<int>, init: bool, add: bool)
    ensures Settled(s, ids, init, add) == Visited(Refresh(s, ids, init).slots, |s|, add)
  {
  }

  lemma FindIs(s: seq<Slot>, id: int, i: nat)
    requires i <= |s| && forall k :: 0 <= k < i ==> s[k].cpuid != id
    ensures i < |s| && s[i].cpuid == id ==> Find(s, id) == i
    ensures i == |s| ==> Find(s, id) == -1
  {
    assert i < |s| && s[i].cpuid == id ==> Has(s, id);
  }
}
