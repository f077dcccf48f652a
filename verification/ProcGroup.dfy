/**
 The group of tracked processes: a hash table of doubly linked chains with a "latest"
 cache, refreshed against the pids the system reports.
 */
module ProcGroup {
  import opened Basics
  import opened Libc

  const PROC_HASHTBL_SIZE := 128

  class Proc {
    const pid: nat
    var refCount: int
    var removing: bool
    ghost var freed: bool
    var hashPrev: Proc?
    var hashNext: Proc?

    constructor (pid: nat)
      ensures this.pid == pid && AsNew()
    {
      this.pid := pid;
      refCount, removing, freed := 0, false, false;
      hashPrev, hashNext := null, null;
    }

    /** As it is allocated: a zeroed process that is not marked, with no references. */
    ghost predicate AsNew()
      reads this
    {
      refCount == 0 && !removing && !freed
    }

    /** `proc_refcount_inc`. */
    method RefcountInc() returns (ok: bool)
      modifies `refCount
      ensures ok == !removing
      ensures refCount == if ok then old(refCount) + 1 else old(refCount)
    {
      ok := !removing;
      if ok {
        refCount := refCount + 1;
      }
    }
  }

  /** The k-th node's links agree with its neighbours in the chain `s`. */
  ghost predicate LinkedAt(s: seq<Proc>, k: int)
    requires 0 <= k < |s|
    reads s`hashPrev, s`hashNext
  {
    && s[k].hashPrev == (if k == 0 then null else s[k - 1])
    && s[k].hashNext == (if k + 1 < |s| then s[k + 1] else null)
  }

  ghost predicate Linked(s: seq<Proc>)
    reads s`hashPrev, s`hashNext
  {
    forall k :: 0 <= k < |s| ==> LinkedAt(s, k)
  }

  /** `PROC_HASHTBL_INDEX`; pids are not negative. */
  function Index(pid: nat): (b: nat)
    ensures b < PROC_HASHTBL_SIZE
  {
    pid % PROC_HASHTBL_SIZE
  }

  predicate InBucket(s: seq<Proc>, b: int) {
    && (forall k :: 0 <= k < |s| ==> Index(s[k].pid) == b)
    && (forall i, j :: 0 <= i < j < |s| ==> s[i].pid != s[j].pid)
  }

  method LinkFront(head: Proc?, p: Proc, ghost s: seq<Proc>)
    requires Linked(s) && p !in s && head == (if s == [] then null else s[0])
    requires forall i, j :: 0 <= i < j < |s| ==> s[i] != s[j]
    modifies p`hashPrev, p`hashNext, (if head == null then {} else {head})`hashPrev
    ensures Linked([p] + s)
  {
    if head != null {
      head.hashPrev := p;
    }
    p.hashNext := head;
    p.hashPrev := null;
    ghost var t := [p] + s;
    forall k | 0 <= k < |t|
      ensures LinkedAt(t, k)
    {
      if k > 0 {
        assert old(LinkedAt(s, k - 1));
        assert t[k] == s[k - 1] != p;
      }
    }
  }

  /** Takes the k-th node out of the chain whose head is in `tbl[b]`. */
  method Unlink(tbl: array<Proc?>, b: nat, p: Proc, ghost s: seq<Proc>, ghost k: nat)
    requires Linked(s) && k < |s| && s[k] == p && b < tbl.Length && tbl[b] == s[0]
    requires forall i, j :: 0 <= i < j < |s| ==> s[i] != s[j]
    modifies tbl, s`hashPrev, s`hashNext
    ensures Linked(s[..k] + s[k + 1..])
    ensures tbl[b] == (var t := s[..k] + s[k + 1..]; if t == [] then null else t[0])
    ensures forall c :: 0 <= c < tbl.Length && c != b ==> tbl[c] == old(tbl[c])
    ensures p.hashNext == old(p.hashNext)
  {
    assert LinkedAt(s, k);
    assert k > 0 ==> LinkedAt(s, k - 1);
    assert k + 1 < |s| ==> LinkedAt(s, k + 1);
    var prev, next := p.hashPrev, p.hashNext;
    if prev != null {
      prev.hashNext := next;
    } else {
      tbl[b] := next;
    }
    if next != null {
      next.hashPrev := prev;
    }
    ghost var t := s[..k] + s[k + 1..];
    forall i | 0 <= i < |t|
      ensures LinkedAt(t, i)
    {
      ghost var j := if i < k then i else i + 1;
      assert t[i] == s[j];
      assert old(LinkedAt(s, j));
      assert j > 0 ==> old(LinkedAt(s, j - 1));
    }
  }

  /** The processes of a chain that are still reported. */
  function Keep(s: seq<Proc>, pids: seq<int>): (r: seq<Proc>)
    ensures forall i :: 0 <= i < |r| ==> r[i] in s && r[i].pid in pids
    ensures forall i :: 0 <= i < |s| && s[i].pid in pids ==> s[i] in r
  {
    if s == [] then []
    else Keep(s[..|s| - 1], pids) + if s[|s| - 1].pid in pids then [s[|s| - 1]] else []
  }

  /** A process of the chain that is no longer reported. */
  predicate Gone(q: Proc, s: seq<Proc>, pids: seq<int>) {
    q in s && q.pid !in pids
  }

  datatype Flags = Flags(removing: bool, freed: bool)

  predicate PidIn(s: seq<Proc>, pid: int) {
    exists k :: 0 <= k < |s| && s[k].pid == pid
  }

  /** A chain whose first m processes were swept. */
  function Partly(s: seq<Proc>, m: nat, pids: seq<int>): seq<Proc>
    requires m <= |s|
  {
    Keep(s[..m], pids) + s[m..]
  }

  lemma KeepStep(s: seq<Proc>, m: nat, pids: seq<int>)
    requires m < |s|
    ensures var kept, next := Keep(s[..m], pids), Partly(s, m + 1, pids);
            var chain := Partly(s, m, pids);
            && |kept| < |chain| && chain[|kept|] == s[m]
            && (if |kept| + 1 < |chain| then m + 1 < |s| && chain[|kept| + 1] == s[m + 1] else m + 1 == |s|)
            && next == if s[m].pid in pids then chain else chain[..|kept|] + chain[|kept| + 1..]
  {
    assert s[..m + 1][..m] == s[..m];
  }

  lemma GoneStep(s: seq<Proc>, m: nat, pids: seq<int>)
    requires m < |s|
    ensures forall q :: Gone(q, s[..m + 1], pids) <==> Gone(q, s[..m], pids) || (q == s[m] && s[m].pid !in pids)
  {
    var t, u := s[..m], s[..m + 1];
    assert u == t + [s[m]];
    assert u[m] == s[m];
    forall q
      ensures Gone(q, u, pids) <==> Gone(q, t, pids) || (q == s[m] && s[m].pid !in pids)
    {
    }
  }

  lemma PidInStep(s: seq<Proc>, m: nat)
    requires m < |s|
    ensures forall x :: PidIn(s[..m + 1], x) <==> PidIn(s[..m], x) || s[m].pid == x
  {
    forall x | PidIn(s[..m], x) || s[m].pid == x
      ensures PidIn(s[..m + 1], x)
    {
      if s[m].pid == x {
        assert s[..m + 1][m].pid == x;
      } else {
        var k :| 0 <= k < m && s[..m][k].pid == x;
        assert s[..m + 1][k].pid == x;
      }
    }
    forall x | PidIn(s[..m + 1], x) && s[m].pid != x
      ensures PidIn(s[..m], x)
    {
      var k :| 0 <= k < m + 1 && s[..m + 1][k].pid == x;
      assert s[..m][k].pid == x;
    }
  }

  lemma KeepEnds(s: seq<Proc>, pids: seq<int>)
    ensures Partly(s, 0, pids) == s
    ensures Partly(s, |s|, pids) == Keep(s, pids) && s[..|s|] == s
    ensures forall x :: !PidIn(s[..0], x)
    ensures forall q :: !Gone(q, s[..0], pids)
  {
    assert s[..|s|] == s;
  }

  predicate Holds(bs: seq<seq<Proc>>, p: Proc) {
    |bs| == PROC_HASHTBL_SIZE && p in bs[Index(p.pid)]
  }

  predicate HoldsPid(bs: seq<seq<Proc>>, pid: int) {
    |bs| == PROC_HASHTBL_SIZE && pid >= 0 && PidIn(bs[Index(pid)], pid)
  }

  lemma HoldsAdded(bs: seq<seq<Proc>>, p: Proc)
    requires |bs| == PROC_HASHTBL_SIZE
    ensures var b := Index(p.pid); var now := bs[b := [p] + bs[b]];
            && (forall q :: Holds(now, q) <==> Holds(bs, q) || q == p)
            && (forall x :: HoldsPid(now, x) <==> HoldsPid(bs, x) || x == p.pid)
  {
    hide Index;
    var b := Index(p.pid);
    var s := bs[b];
    forall x
      ensures PidIn([p] + s, x) <==> PidIn(s, x) || x == p.pid
    {
      if PidIn(s, x) {
        var k :| 0 <= k < |s| && s[k].pid == x;
        assert ([p] + s)[k + 1].pid == x;
      } else if x == p.pid {
        assert ([p] + s)[0].pid == x;
      }
    }
  }

  /** All processes of a table, bucket by bucket. */
  function Flatten(bs: seq<seq<Proc>>): seq<Proc> {
    if bs == [] then [] else bs[0] + Flatten(bs[1..])
  }

  /** What a traversal visits that has seen `j` so far: it stops after the bucket at
      whose end it has seen `n`. */
  function Visits(bs: seq<seq<Proc>>, j: nat, n: int): seq<Proc> {
    if bs == [] then []
    else bs[0] + if j + |bs[0]| == n then [] else Visits(bs[1..], j + |bs[0]|, n)
  }

  /** At some bucket's end `n` have been seen and there are more to come. */
  predicate StopsShort(bs: seq<seq<Proc>>, j: nat, n: int) {
    bs != [] && ((j + |bs[0]| == n && Flatten(bs[1..]) != []) || StopsShort(bs[1..], j + |bs[0]|, n))
  }

  lemma {:induction false} NothingLeft(bs: seq<seq<Proc>>, j: nat, n: int)
    requires Flatten(bs) == []
    ensures !StopsShort(bs, j, n)
  {
    if bs != [] {
      NothingLeft(bs[1..], j + |bs[0]|, n);
    }
  }

  /** A traversal visits every process if and only if it does not stop short. */
  lemma {:induction false} VisitsAllIff(bs: seq<seq<Proc>>, j: nat, n: int)
    ensures Visits(bs, j, n) <= Flatten(bs)
    ensures Visits(bs, j, n) == Flatten(bs) <==> !StopsShort(bs, j, n)
  {
    if bs != [] {
      if j + |bs[0]| == n {
        if Flatten(bs[1..]) == [] {
          NothingLeft(bs[1..], j + |bs[0]|, n);
        }
      } else {
        VisitsAllIff(bs[1..], j + |bs[0]|, n);
        assert bs[0] + Visits(bs[1..], j + |bs[0]|, n) == bs[0] + Flatten(bs[1..])
          <==> Visits(bs[1..], j + |bs[0]|, n) == Flatten(bs[1..]) by {
          assert (bs[0] + Visits(bs[1..], j + |bs[0]|, n))[|bs[0]|..] == Visits(bs[1..], j + |bs[0]|, n);
          assert (bs[0] + Flatten(bs[1..]))[|bs[0]|..] == Flatten(bs[1..]);
        }
      }
    }
  }

  /** When the count is right, nothing is missed. */
  lemma {:induction false} CountIsEnough(bs: seq<seq<Proc>>, j: nat)
    ensures !StopsShort(bs, j, j + |Flatten(bs)|)
  {
    if bs != [] {
      CountIsEnough(bs[1..], j + |bs[0]|);
    }
  }

  lemma VisitsStep(bs: seq<seq<Proc>>, i: nat, j: nat, n: int, before: seq<Proc>)
    requires i < |bs|
    ensures var k := j + |bs[i]|;
            before + Visits(bs[i..], j, n) == before + bs[i] + if k == n then [] else Visits(bs[i + 1..], k, n)
  {
    assert bs[i..][1..] == bs[i + 1..];
  }

  lemma VisitsEnd(bs: seq<seq<Proc>>, j: nat, n: int)
    ensures Visits(bs[|bs|..], j, n) == []
  {
  }

  /** A count that is one short loses a process: two in different buckets, one counted. */
  lemma ShortCountLoses(p: Proc, q: Proc)
    ensures Visits([[p], [q]], 0, 1) == [p]
  {
  }

  // ---------------------------------------------------------------------------
  // Counting

  function PidsOf(s: seq<Proc>): seq<int> {
    seq(|s|, i requires 0 <= i < |s| => s[i].pid)
  }

  lemma {:induction false} FlattenPids(bs: seq<seq<Proc>>, lo: nat)
    requires forall i :: 0 <= i < |bs| ==> InBucket(bs[i], lo + i)
    ensures Distinct(PidsOf(Flatten(bs)))
    ensures forall k :: 0 <= k < |Flatten(bs)| ==> Index(Flatten(bs)[k].pid) >= lo
    ensures forall x :: x in PidsOf(Flatten(bs)) <==> exists i :: 0 <= i < |bs| && PidIn(bs[i], x)
  {
    hide Index;
    if bs != [] {
      var s, rest := bs[0], Flatten(bs[1..]);
      FlattenPids(bs[1..], lo + 1);
      var all := s + rest;
      forall i, j | 0 <= i < j < |all|
        ensures all[i].pid != all[j].pid
      {
        if i >= |s| {
          assert PidsOf(rest)[i - |s|] != PidsOf(rest)[j - |s|];
        }
      }
      forall x
        ensures x in PidsOf(all) <==> PidIn(s, x) || x in PidsOf(rest)
      {
        AppendPids(s, rest, x);
      }
      forall x
        ensures (exists i :: 0 <= i < |bs| && PidIn(bs[i], x)) <==> PidIn(s, x) || exists i :: 0 <= i < |bs[1..]| && PidIn(bs[1..][i], x)
      {
        if i :| 0 <= i < |bs| && PidIn(bs[i], x) {
          assert i > 0 ==> PidIn(bs[1..][i - 1], x);
        }
        if i :| 0 <= i < |bs[1..]| && PidIn(bs[1..][i], x) {
          assert PidIn(bs[i + 1], x);
        }
      }
    }
  }

  lemma AppendPids(s: seq<Proc>, t: seq<Proc>, x: int)
    ensures x in PidsOf(s + t) <==> PidIn(s, x) || x in PidsOf(t)
  {
    assert PidsOf(s + t) == PidsOf(s) + PidsOf(t);
    if PidIn(s, x) {
      var k :| 0 <= k < |s| && s[k].pid == x;
      assert PidsOf(s)[k] == x;
    }
    if x in PidsOf(s) {
      var k :| 0 <= k < |s| && PidsOf(s)[k] == x;
      assert s[k].pid == x;
    }
  }

  lemma KeepHas(s: seq<Proc>, pids: seq<int>, q: Proc)
    ensures q in Keep(s, pids) <==> q in s && q.pid in pids
  {
  }

  /** A table whose buckets keep the reported pids. */
  lemma KeepTable(was: seq<seq<Proc>>, kept: seq<seq<Proc>>, pids: seq<int>)
    requires |was| == |kept| == PROC_HASHTBL_SIZE
    requires forall b :: 0 <= b < PROC_HASHTBL_SIZE ==> kept[b] == Keep(was[b], pids)
    ensures forall q :: Holds(kept, q) <==> Holds(was, q) && q.pid in pids
    ensures forall x :: HoldsPid(kept, x) <==> HoldsPid(was, x) && x in pids
  {
    hide Keep, PidIn, Index;
    forall q
      ensures Holds(kept, q) <==> Holds(was, q) && q.pid in pids
    {
      KeepHas(was[Index(q.pid)], pids, q);
    }
    forall x
      ensures HoldsPid(kept, x) <==> HoldsPid(was, x) && x in pids
    {
      if x >= 0 {
        KeepPids(was[Index(x)], pids);
      }
    }
  }

  lemma KeepPids(s: seq<Proc>, pids: seq<int>)
    ensures forall x :: PidIn(Keep(s, pids), x) <==> PidIn(s, x) && x in pids
  {
    var r := Keep(s, pids);
    forall x | PidIn(s, x) && x in pids
      ensures PidIn(r, x)
    {
      var k :| 0 <= k < |s| && s[k].pid == x;
      var j :| 0 <= j < |r| && r[j] == s[k];
      assert r[j].pid == x;
    }
    forall x | PidIn(r, x)
      ensures PidIn(s, x) && x in pids
    {
      var j :| 0 <= j < |r| && r[j].pid == x;
      var k :| 0 <= k < |s| && s[k] == r[j];
      assert s[k].pid == x;
    }
  }

  class Group {
    const hashtbl: array<Proc?>
    var latest: Proc?
    var nprocs: int
    ghost var buckets: seq<seq<Proc>>
    ghost var nodes: set<Proc>

    ghost predicate Valid()
      reads `buckets, `nodes, `latest, hashtbl, nodes`hashPrev, nodes`hashNext
    {
      && hashtbl.Length == |buckets| == PROC_HASHTBL_SIZE
      && (forall b :: 0 <= b < |buckets| ==> BucketOk(b))
      && (latest != null ==> InTable(latest))
    }

    ghost predicate BucketOk(b: int)
      requires 0 <= b < |buckets| && b < hashtbl.Length
      reads `buckets, `nodes, hashtbl, nodes`hashPrev, nodes`hashNext
    {
      var s := buckets[b];
      && hashtbl[b] == (if s == [] then null else s[0])
      && InBucket(s, b)
      && (forall k :: 0 <= k < |s| ==> s[k] in nodes)
      && Linked(s)
    }

    ghost predicate InTable(p: Proc)
      reads `buckets
    {
      Holds(buckets, p)
    }

    constructor ()
      ensures Valid() && fresh(hashtbl) && nodes == {} && nprocs == 0
      ensures forall b :: 0 <= b < |buckets| ==> buckets[b] == []
    {
      hashtbl := new Proc?[PROC_HASHTBL_SIZE](_ => null);
      latest, nprocs := null, 0;
      buckets, nodes := seq(PROC_HASHTBL_SIZE, _ => []), {};
    }

    /** `proc_group_add`. */
    method Add(p: Proc)
      requires Valid() && forall q :: InTable(q) ==> q.pid != p.pid
      modifies this`buckets, this`nodes, this`nprocs, hashtbl, nodes`hashPrev, p`hashPrev, p`hashNext
      ensures Valid() && nprocs == old(nprocs) + 1 && nodes == old(nodes) + {p}
      ensures buckets == old(buckets)[Index(p.pid) := [p] + old(buckets)[Index(p.pid)]]
    {
      hide Linked, Index;
      var b := Index(p.pid);
      assert BucketOk(b);
      ghost var s, was := buckets[b], buckets;
      assert p !in s by {
        assert p in s ==> InTable(p);
      }
      LinkFront(hashtbl[b], p, s);
      hashtbl[b] := p;
      nprocs := nprocs + 1;
      buckets, nodes := buckets[b := [p] + s], nodes + {p};
      forall c | 0 <= c < |buckets|
        ensures BucketOk(c)
      {
        assert old(BucketOk(c));
        if c != b {
          assert p !in was[c] && (s != [] ==> s[0] !in was[c]);
        } else {
          assert forall q :: q in s ==> InBucket([q], b);
        }
      }
    }

    /** `proc_group_remove`. */
    method Remove(p: Proc, ghost k: nat)
      requires Valid() && k < |buckets[Index(p.pid)]| && buckets[Index(p.pid)][k] == p
      modifies this`buckets, this`nprocs, this`latest, hashtbl, nodes`hashPrev, nodes`hashNext
      ensures Valid() && nprocs == old(nprocs) - 1
      ensures var b, s := Index(p.pid), old(buckets)[Index(p.pid)];
              buckets == old(buckets)[b := s[..k] + s[k + 1..]]
      ensures latest == (if old(latest) == p then null else old(latest))
      ensures p.hashNext == old(p.hashNext)
    {
      hide Linked, Index;
      var b := Index(p.pid);
      assert BucketOk(b);
      ghost var s, was := buckets[b], buckets;
      Unlink(hashtbl, b, p, s, k);
      nprocs := nprocs - 1;
      if latest == p {
        latest := null;
      }
      buckets := buckets[b := s[..k] + s[k + 1..]];
      forall c | 0 <= c < |buckets|
        ensures BucketOk(c)
      {
        assert old(BucketOk(c));
        if c != b {
          assert forall q :: q in s ==> q !in was[c];
        }
      }
      assert latest != null ==> InTable(latest) by {
        assert latest != null && Index(latest.pid) == b ==> latest in s[..k] + s[k + 1..] by {
          assert s == s[..k] + [p] + s[k + 1..];
        }
      }
    }

    /** `proc_free`, under the group's mutex: deferred while references are held. */
    method Free(p: Proc)
      modifies this`nprocs, p`removing, p`freed
      ensures if p.refCount > 0 then p.removing && p.freed == old(p.freed) && nprocs == old(nprocs)
              else p.freed && p.removing == old(p.removing) && nprocs == old(nprocs) - 1
    {
      if p.refCount > 0 {
        p.removing := true;
        return;
      }
      nprocs := nprocs - 1;
      p.freed := true;
    }

    /** `proc_find_nolock`: the cache only saves the scan, it never changes the answer. */
    method Find(pid: nat) returns (p: Proc?)
      requires Valid()
      modifies this`latest, nodes`refCount
      ensures Valid()
      ensures p != null ==> InTable(p) && p.pid == pid && !p.removing && latest == p
      ensures p == null ==> forall q :: InTable(q) && q.pid == pid ==> q.removing
      ensures forall q :: q in nodes ==> q.refCount == old(q.refCount) + if q == p then 1 else 0
      ensures latest == if p != null then p else if old(latest) != null && old(latest).pid == pid then null else old(latest)
    {
      hide Linked, Index;
      ghost var b := Index(pid);
      assert BucketOk(b);
      if latest != null && latest.pid == pid {
        p := latest;
      } else {
        p := Scan(pid);
      }
      if p != null {
        var ok := p.RefcountInc();
        if !ok {
          if latest == p {
            latest := null;
          }
          forall q | InTable(q) && q.pid == pid
            ensures q.removing
          {
            SamePid(p, q);
          }
          return null;
        }
      }
      if p != null {
        latest := p;
      }
    }

    lemma SamePid(p: Proc, q: Proc)
      requires Valid() && InTable(p) && InTable(q) && p.pid == q.pid
      ensures p == q
    {
      assert BucketOk(Index(p.pid));
    }

    /** What the code sees of bucket b. */
    lemma BucketFacts(b: nat)
      requires Valid() && b < PROC_HASHTBL_SIZE
      ensures |buckets| == hashtbl.Length == PROC_HASHTBL_SIZE
      ensures hashtbl[b] == (if |buckets[b]| == 0 then null else buckets[b][0])
    {
      assert BucketOk(b);
    }

    lemma NodeFacts(b: nat, k: nat)
      requires Valid() && b < PROC_HASHTBL_SIZE && k < |buckets[b]|
      ensures buckets[b][k].hashNext == (if k + 1 < |buckets[b]| then buckets[b][k + 1] else null)
      ensures Index(buckets[b][k].pid) == b && buckets[b][k] in nodes
    {
      assert BucketOk(b);
      assert LinkedAt(buckets[b], k);
    }

    method Scan(pid: nat) returns (p: Proc?)
      requires Valid()
      ensures p != null ==> InTable(p) && p.pid == pid
      ensures p == null ==> forall q :: InTable(q) ==> q.pid != pid
    {
      hide Index;
      assert BucketOk(Index(pid));
      ghost var s, k := buckets[Index(pid)], 0;
      p := hashtbl[Index(pid)];
      while p != null
        invariant 0 <= k <= |s| && p == (if k < |s| then s[k] else null)
        invariant forall i :: 0 <= i < k ==> s[i].pid != pid
        decreases |s| - k
      {
        if p.pid == pid {
          break;
        }
        assert LinkedAt(s, k);
        p := p.hashNext;
        k := k + 1;
      }
    }

    /** No process of the table is marked as removing. */
    ghost predicate NoneMarked()
      reads `buckets, `nodes, nodes`removing
    {
      forall q :: q in nodes && InTable(q) ==> !q.removing
    }

    lemma TableNode(p: Proc)
      requires Valid() && InTable(p)
      ensures p in nodes && HasPid(p.pid)
    {
      assert BucketOk(Index(p.pid));
    }

    lemma PidInTable(pid: nat)
      requires Valid()
      ensures HasPid(pid) <==> exists q :: InTable(q) && q.pid == pid
    {
      hide Index, Linked;
      assert BucketOk(Index(pid));
      var s := buckets[Index(pid)];
      if HasPid(pid) {
        var k :| 0 <= k < |s| && s[k].pid == pid;
        assert InTable(s[k]);
      }
      if q :| InTable(q) && q.pid == pid {
        assert q in s;
      }
    }

    ghost predicate HasPid(pid: int)
      reads `buckets
    {
      HoldsPid(buckets, pid)
    }

    /** One process in `proc_group_refresh`: removed and freed, or marked as existing. */
    method SweepOne(p: Proc, ghost k: nat, pids: seq<int>, exist: array<bool>)
      requires Valid() && k < |buckets[Index(p.pid)]| && buckets[Index(p.pid)][k] == p
      requires StrictlySorted(pids) && exist.Length == |pids| && exist as object != hashtbl
      modifies this`buckets, this`nprocs, this`latest, hashtbl, exist
      modifies nodes`hashPrev, nodes`hashNext, p`removing, p`freed
      ensures Valid() && p.hashNext == old(p.hashNext)
      ensures var b, s := Index(p.pid), old(buckets)[Index(p.pid)];
              buckets == if p.pid in pids then old(buckets) else old(buckets)[b := s[..k] + s[k + 1..]]
      ensures p.removing == (old(p.removing) || (p.pid !in pids && p.refCount > 0))
      ensures p.freed == (old(p.freed) || (p.pid !in pids && p.refCount <= 0))
      ensures forall j :: 0 <= j < |pids| ==> exist[j] == (old(exist[j]) || p.pid == pids[j])
    {
      hide Linked, Index;
      var j := BSearch(pids, x => p.pid - x);
      if j == -1 {
        assert p.pid !in pids;
        Remove(p, k);
        Free(p);
      } else {
        assert p.pid == pids[j];
        exist[j] := true;
      }
    }

    /** One turn of the inner loop: bucket i holds the kept part of s[..m], then s[m..]. */
    method SweepNext(i: nat, p: Proc, ghost s: seq<Proc>, ghost m: nat, pids: seq<int>, exist: array<bool>)
      returns (next: Proc?)
      requires Valid() && i < PROC_HASHTBL_SIZE && m < |s| && p == s[m]
      requires |buckets| == PROC_HASHTBL_SIZE && buckets[i] == Partly(s, m, pids)
      requires StrictlySorted(pids) && exist.Length == |pids| && exist as object != hashtbl
      modifies this`buckets, this`nprocs, this`latest, hashtbl, exist
      modifies nodes`hashPrev, nodes`hashNext, p`removing, p`freed
      ensures Valid() && buckets == old(buckets)[i := Partly(s, m + 1, pids)]
      ensures next == (if m + 1 < |s| then s[m + 1] else null)
      ensures p.removing == (old(p.removing) || (p.pid !in pids && p.refCount > 0))
      ensures p.freed == (old(p.freed) || (p.pid !in pids && p.refCount <= 0))
      ensures forall j :: 0 <= j < |pids| ==> exist[j] == (old(exist[j]) || p.pid == pids[j])
    {
      hide *;
      ghost var kept := Keep(s[..m], pids);
      KeepStep(s, m, pids);
      NodeFacts(i, |kept|);
      next := p.hashNext;
      SweepOne(p, |kept|, pids, exist);
    }

    /** What sweeping `s` did to the flags of all nodes and of the reported pids. */
    ghost predicate Marked(was: map<Proc, Flags>, s: seq<Proc>, pids: seq<int>)
      reads this`nodes, nodes`removing, nodes`freed, nodes`refCount
    {
      forall q :: q in nodes ==>
        && q in was
        && q.removing == (was[q].removing || (Gone(q, s, pids) && q.refCount > 0))
        && q.freed == (was[q].freed || (Gone(q, s, pids) && q.refCount <= 0))
    }

    ghost predicate Found(exist: array<bool>, was: seq<bool>, s: seq<Proc>, pids: seq<int>)
      reads exist
    {
      && exist.Length == |was| == |pids|
      && forall j :: 0 <= j < |pids| ==> exist[j] == (was[j] || PidIn(s, pids[j]))
    }

    lemma TurnNode(i: nat, s: seq<Proc>, m: nat, pids: seq<int>)
      requires Valid() && i < PROC_HASHTBL_SIZE && m < |s|
      requires |buckets| == PROC_HASHTBL_SIZE && buckets[i] == Partly(s, m, pids)
      ensures s[m] in nodes
    {
      hide *;
      KeepStep(s, m, pids);
      NodeFacts(i, |Keep(s[..m], pids)|);
    }

    /** The same turn, with what it adds to the flags. */
    method SweepTurn(i: nat, p: Proc, ghost s: seq<Proc>, ghost m: nat, pids: seq<int>, exist: array<bool>,
                     ghost was: map<Proc, Flags>, ghost found: seq<bool>)
      returns (next: Proc?)
      requires Valid() && i < PROC_HASHTBL_SIZE && m < |s| && p == s[m]
      requires |buckets| == PROC_HASHTBL_SIZE && buckets[i] == Partly(s, m, pids)
      requires StrictlySorted(pids) && exist.Length == |pids| && exist as object != hashtbl
      requires Marked(was, s[..m], pids) && Found(exist, found, s[..m], pids)
      modifies this`buckets, this`nprocs, this`latest, hashtbl, exist
      modifies nodes`hashPrev, nodes`hashNext, nodes`removing, nodes`freed
      ensures Valid() && buckets == old(buckets)[i := Partly(s, m + 1, pids)]
      ensures next == (if m + 1 < |s| then s[m + 1] else null)
      ensures Marked(was, s[..m + 1], pids) && Found(exist, found, s[..m + 1], pids)
    {
      hide Valid, Partly, Gone, PidIn, StrictlySorted;
      TurnNode(i, s, m, pids);
      GoneStep(s, m, pids);
      PidInStep(s, m);
      next := SweepNext(i, p, s, m, pids, exist);
    }

    /** The inner loop of `proc_group_refresh` over bucket i. */
    method SweepBucket(i: nat, pids: seq<int>, exist: array<bool>)
      requires Valid() && i < PROC_HASHTBL_SIZE && StrictlySorted(pids) && exist.Length == |pids|
      requires exist as object != hashtbl
      modifies this`buckets, this`nprocs, this`latest, hashtbl, exist
      modifies nodes`hashPrev, nodes`hashNext, nodes`removing, nodes`freed
      ensures Valid() && buckets == old(buckets)[i := Keep(old(buckets)[i], pids)]
      ensures forall q :: q in nodes ==>
                && q.removing == (old(q.removing) || (Gone(q, old(buckets)[i], pids) && q.refCount > 0))
                && q.freed == (old(q.freed) || (Gone(q, old(buckets)[i], pids) && q.refCount <= 0))
      ensures forall j :: 0 <= j < |pids| ==> exist[j] == (old(exist[j]) || PidIn(old(buckets)[i], pids[j]))
    {
      hide Valid, Keep, Gone, PidIn, StrictlySorted;
      ghost var was := map q | q in nodes :: Flags(q.removing, q.freed);
      BucketFacts(i);
      KeepEnds(buckets[i], pids);
      SweepChain(i, pids, exist, was, exist[..]);
    }

    method SweepChain(i: nat, pids: seq<int>, exist: array<bool>, ghost was: map<Proc, Flags>, ghost found: seq<bool>)
      requires Valid() && i < PROC_HASHTBL_SIZE && StrictlySorted(pids) && exist.Length == |pids|
      requires exist as object != hashtbl && i < |buckets|
      requires Marked(was, buckets[i][..0], pids) && Found(exist, found, buckets[i][..0], pids)
      modifies this`buckets, this`nprocs, this`latest, hashtbl, exist
      modifies nodes`hashPrev, nodes`hashNext, nodes`removing, nodes`freed
      ensures Valid() && buckets == old(buckets)[i := Keep(old(buckets)[i], pids)]
      ensures Marked(was, old(buckets)[i], pids) && Found(exist, found, old(buckets)[i], pids)
    {
      hide *;
      BucketFacts(i);
      ghost var s, m, before := buckets[i], 0, buckets;
      var proc := hashtbl[i];
      KeepEnds(s, pids);
      assert buckets == before[i := s];
      while proc != null
        invariant Valid() && 0 <= m <= |s| && proc == (if m < |s| then s[m] else null)
        invariant buckets == before[i := Partly(s, m, pids)]
        invariant Marked(was, s[..m], pids) && Found(exist, found, s[..m], pids)
        decreases |s| - m
      {
        proc := SweepTurn(i, proc, s, m, pids, exist, was, found);
        m := m + 1;
      }
    }

    lemma OwnBucket(b: nat)
      requires Valid() && b < PROC_HASHTBL_SIZE
      ensures forall q :: q in buckets[b] ==> Index(q.pid) == b
      ensures forall x :: PidIn(buckets[b], x) ==> x >= 0 && Index(x) == b
    {
      assert BucketOk(b);
    }

    /** The first loop of `proc_group_refresh`. */
    method Sweep(pids: seq<int>, exist: array<bool>)
      requires Valid() && StrictlySorted(pids) && exist.Length == |pids| && exist as object != hashtbl
      requires forall j :: 0 <= j < |pids| ==> pids[j] >= 0 && !exist[j]
      modifies this`buckets, this`nprocs, this`latest, hashtbl, exist
      modifies nodes`hashPrev, nodes`hashNext, nodes`removing, nodes`freed
      ensures Valid() && forall b :: 0 <= b < PROC_HASHTBL_SIZE ==> buckets[b] == Keep(old(buckets)[b], pids)
      ensures forall q :: q in nodes ==>
                && q.removing == (old(q.removing) || (old(InTable(q)) && q.pid !in pids && q.refCount > 0))
                && q.freed == (old(q.freed) || (old(InTable(q)) && q.pid !in pids && q.refCount <= 0))
      ensures forall j :: 0 <= j < |pids| ==> exist[j] == old(HasPid(pids[j]))
    {
      hide Valid, Keep, PidIn, Index;
      BucketFacts(0);
      ghost var was := buckets;
      for i := 0 to PROC_HASHTBL_SIZE
        invariant Valid() && |buckets| == |was| == PROC_HASHTBL_SIZE
        invariant forall b :: 0 <= b < i ==> buckets[b] == Keep(was[b], pids)
        invariant forall b :: i <= b < PROC_HASHTBL_SIZE ==> buckets[b] == was[b]
        invariant forall q :: q in nodes ==>
                    var gone := Index(q.pid) < i && Gone(q, was[Index(q.pid)], pids);
                    && q.removing == (old(q.removing) || (gone && q.refCount > 0))
                    && q.freed == (old(q.freed) || (gone && q.refCount <= 0))
        invariant forall j :: 0 <= j < |pids| ==>
                    exist[j] == (Index(pids[j]) < i && PidIn(was[Index(pids[j])], pids[j]))
      {
        OwnBucket(i);
        SweepBucket(i, pids, exist);
      }
    }

    method VisitBucket(i: nat) returns (s: seq<Proc>)
      requires Valid() && i < PROC_HASHTBL_SIZE
      ensures |buckets| == PROC_HASHTBL_SIZE && s == buckets[i]
    {
      hide Valid;
      BucketFacts(i);
      var proc := hashtbl[i];
      s := [];
      while proc != null
        invariant s <= buckets[i] && proc == (if |s| < |buckets[i]| then buckets[i][|s|] else null)
        decreases |buckets[i]| - |s|
      {
        NodeFacts(i, |s|);
        s := s + [proc];
        proc := proc.hashNext;
      }
    }

    /** `proc_traverse`, returning the processes it calls the function on. */
    method Traverse() returns (visited: seq<Proc>)
      requires Valid()
      ensures visited == Visits(buckets, 0, nprocs)
      ensures visited == Flatten(buckets) <==> !StopsShort(buckets, 0, nprocs)
    {
      hide Valid, Visits, StopsShort, Flatten;
      VisitsAllIff(buckets, 0, nprocs);
      visited := [];
      var j: nat := 0;
      BucketFacts(0);
      assert buckets[0..] == buckets;
      for i := 0 to PROC_HASHTBL_SIZE
        invariant visited + Visits(buckets[i..], j, nprocs) == Visits(buckets, 0, nprocs)
      {
        var s := VisitBucket(i);
        VisitsStep(buckets, i, j, nprocs, visited);
        visited := visited + s;
        j := j + |s|;
        if j == nprocs {
          return;
        }
      }
      VisitsEnd(buckets, j, nprocs);
    }

    /** A traversal with the right count visits every process. */
    method VisitAll() returns (visited: seq<Proc>)
      requires Valid() && nprocs == |Flatten(buckets)|
      ensures visited == Flatten(buckets)
    {
      hide *;
      CountIsEnough(buckets, 0);
      visited := Traverse();
    }

    /** The second loop of `proc_group_refresh`. */
    method Populate(pids: seq<int>, exist: array<bool>)
      requires Valid() && StrictlySorted(pids) && exist.Length == |pids|
      requires forall j :: 0 <= j < |pids| ==> pids[j] >= 0 && exist[j] == HasPid(pids[j])
      requires exist as object != hashtbl
      modifies this`buckets, this`nodes, this`nprocs, hashtbl, nodes`hashPrev
      ensures Valid()
      ensures forall q :: Holds(old(buckets), q) ==> InTable(q)
      ensures forall q :: InTable(q) ==> Holds(old(buckets), q) || (fresh(q) && q.pid in pids && q.AsNew())
      ensures forall x :: HasPid(x) <==> HoldsPid(old(buckets), x) || x in pids
      ensures forall q :: q in nodes ==> q in old(nodes) || fresh(q)
    {
      hide Valid, Index, HoldsPid;
      for i := 0 to |pids|
        invariant Valid() && old(nodes) <= nodes && forall q :: q in nodes ==> q in old(nodes) || fresh(q)
        invariant forall j :: 0 <= j < |pids| ==> exist[j] == HoldsPid(old(buckets), pids[j])
        invariant forall q :: Holds(old(buckets), q) ==> Holds(buckets, q)
        invariant forall q :: Holds(buckets, q) ==> Holds(old(buckets), q) || (fresh(q) && q.pid in pids[..i] && q.AsNew())
        invariant forall x :: HoldsPid(buckets, x) <==> HoldsPid(old(buckets), x) || x in pids[..i]
      {
        assert pids[..i + 1] == pids[..i] + [pids[i]];
        if !exist[i] {
          var proc := new Proc(pids[i]);
          NoPid(pids[i]);
          BucketFacts(Index(proc.pid));
          ghost var before := buckets;
          Add(proc);
          HoldsAdded(before, proc);
        }
      }
      assert pids[..|pids|] == pids;
    }

    lemma NoPid(pid: nat)
      requires Valid() && !HasPid(pid)
      ensures forall q :: InTable(q) ==> q.pid != pid
    {
    }

    /** A table that holds exactly `pids` has as many processes. */
    lemma CountPids(pids: seq<int>)
      requires Valid() && Distinct(pids) && forall x :: HasPid(x) <==> x in pids
      ensures |Flatten(buckets)| == |pids| && Distinct(PidsOf(Flatten(buckets)))
    {
      hide Index;
      forall b | 0 <= b < |buckets|
        ensures InBucket(buckets[b], b)
      {
        assert BucketOk(b);
      }
      FlattenPids(buckets, 0);
      var all := PidsOf(Flatten(buckets));
      forall x
        ensures x in all <==> x in pids
      {
        if x in all {
          var b :| 0 <= b < |buckets| && PidIn(buckets[b], x);
          OwnBucket(b);
          assert HasPid(x);
        }
        if x in pids {
          assert HasPid(x);
          assert PidIn(buckets[Index(x)], x);
        }
      }
      DistinctSize(all);
      DistinctSize(pids);
      assert Elements(all) == Elements(pids);
    }

    /** The two loops of `proc_group_refresh`. */
    method Renew(procsNew: seq<int>)
      requires Valid() && Distinct(procsNew) && forall i :: 0 <= i < |procsNew| ==> procsNew[i] >= 0
      modifies this`buckets, this`nodes, this`nprocs, this`latest, hashtbl
      modifies nodes`hashPrev, nodes`hashNext, nodes`removing, nodes`freed
      ensures Valid() && nprocs == |procsNew|
      ensures forall x :: HasPid(x) <==> x in procsNew
      ensures forall q :: Holds(old(buckets), q) && q.pid in procsNew ==> InTable(q)
      ensures forall q :: InTable(q) ==> Holds(old(buckets), q) || (fresh(q) && q.AsNew())
      ensures forall q :: q in old(nodes) ==> var gone := Holds(old(buckets), q) && q.pid !in procsNew;
                && q.removing == (old(q.removing) || (gone && q.refCount > 0))
                && q.freed == (old(q.freed) || (gone && q.refCount <= 0))
      ensures forall q :: q in nodes ==> q in old(nodes) || fresh(q)
    {
      hide Valid, Index, Keep, PidIn, Proc.AsNew;
      var pids := Qsort(procsNew);
      QsortDistinct(procsNew);
      var exist := new bool[|pids|](_ => false);
      ghost var was := buckets;
      forall j | 0 <= j < |pids|
        ensures pids[j] >= 0
      {
        assert pids[j] in pids;
        assert pids[j] in procsNew;
      }
      BucketFacts(0);
      Sweep(pids, exist);
      BucketFacts(0);
      ghost var kept := buckets;
      KeepTable(was, kept, pids);
      Populate(pids, exist);
      nprocs := |procsNew|;
    }

    /** `proc_group_refresh` refines replacing the set of tracked processes: the table
        ends with exactly the reported pids, keeping the objects of those that stay. */
    method Refresh(procsNew: seq<int>) returns (refreshed: seq<Proc>, counted: seq<Proc>)
      requires Valid() && Distinct(procsNew) && forall i :: 0 <= i < |procsNew| ==> procsNew[i] >= 0
      modifies this`buckets, this`nodes, this`nprocs, this`latest, hashtbl
      modifies nodes`hashPrev, nodes`hashNext, nodes`removing, nodes`freed
      ensures Valid()
      ensures forall x :: HasPid(x) <==> x in procsNew
      ensures forall q :: Holds(old(buckets), q) && q.pid in procsNew ==> InTable(q)
      ensures forall q :: InTable(q) ==> Holds(old(buckets), q) || (fresh(q) && q.AsNew())
      ensures old(NoneMarked()) ==> NoneMarked()
      ensures forall q :: q in old(nodes) ==> var gone := Holds(old(buckets), q) && q.pid !in procsNew;
                && q.removing == (old(q.removing) || (gone && q.refCount > 0))
                && q.freed == (old(q.freed) || (gone && q.refCount <= 0))
      ensures forall q :: q in nodes ==> q in old(nodes) || fresh(q)
      ensures nprocs == |procsNew| == |Flatten(buckets)|
      ensures refreshed == counted == Flatten(buckets) && Distinct(PidsOf(counted))
    {
      hide Valid, Index, HoldsPid, Flatten, PidsOf;
      forall q | InTable(q)
        ensures q in nodes
      {
        TableNode(q);
      }
      Renew(procsNew);
      forall q | InTable(q)
        ensures q.pid in procsNew
      {
        TableNode(q);
        assert HasPid(q.pid);
      }
      CountPids(procsNew);
      refreshed := VisitAll();
      counted := VisitAll();
    }

    /** After a refresh of a table without marked processes a lookup finds exactly the
        reported pids: the process that was there, or a new one. */
    method RefreshThenFind(procsNew: seq<int>, pid: nat) returns (p: Proc?)
      requires Valid() && Distinct(procsNew) && forall i :: 0 <= i < |procsNew| ==> procsNew[i] >= 0
      requires NoneMarked()
      modifies this`buckets, this`nodes, this`nprocs, this`latest, hashtbl, nodes
      ensures Valid() && NoneMarked()
      ensures p != null <==> pid in procsNew
      ensures p != null ==> p.pid == pid && !p.removing && (fresh(p) <==> !old(HasPid(pid)))
      ensures p != null ==> p.refCount == if fresh(p) then 1 else old(p.refCount) + 1
    {
      hide Valid, Index, HoldsPid, Flatten, PidsOf;
      PidInTable(pid);
      forall q | InTable(q)
        ensures q in nodes && HasPid(q.pid)
      {
        TableNode(q);
      }
      var refreshed, counted := Refresh(procsNew);
      PidInTable(pid);
      forall q | InTable(q)
        ensures q in nodes && (forall r :: InTable(r) && r.pid == q.pid ==> r == q)
      {
        TableNode(q);
        forall r | InTable(r) && r.pid == q.pid
          ensures r == q
        {
          SamePid(q, r);
        }
      }
      p := Find(pid);
    }
  }
}
