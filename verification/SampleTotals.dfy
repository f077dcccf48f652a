/**
 What a whole sample adds up to: on each CPU the counts of every process, of every thread
 and of all processes together are the positive increments of those of that CPU's own
 records that bear their ids, no more and no less; and what it makes of the slots.
 */
module SampleTotals {
  import opened Basics
  import opened Ring
  import opened Counters
  import opened Sampling

  /** What a slot's records come to for a holder of counts. */
  function Amount(procs: seq<Proc>, h: Holder, c: Cpu, f: Feed, pause: bool, e: nat): nat
    requires Exists(procs, h) && Whole(f.batch) && e < PERF_COUNT_NUM
  {
    if pause || c.hotremove || c.cpuid == INVALID_CPUID || !Mapped(c, f) || f.batch == [] then 0
    else Credit(procs, h, f.batch[0].counts, Chargeable(procs, f.batch[1..]), e)
  }

  /** Whether its events are open when its ring is read: those of a hot-added CPU if setting
      it up succeeds. */
  predicate Mapped(c: Cpu, f: Feed) {
    if c.hotadd then f.mapped else c.mapped
  }

  /** Up to slot k of node n, only slots before that one have changed. */
  predicate Later(s: State, r: State, n: nat, k: nat) {
    && SameSize(s, r) && SameProcs(s.procs, r.procs)
    && (forall i :: n <= i < |s.nodes| ==> r.nodes[i].valid == s.nodes[i].valid)
    && (forall i, j :: n <= i < |s.nodes| && (if i == n then k else 0) <= j < |s.nodes[i].cpus| ==>
          r.nodes[i].cpus[j] == s.nodes[i].cpus[j])
  }

  lemma PassCredits(s: State, h: Holder, n: nat, cpu: nat, recs: seq<Rec>, last: seq<nat>, max: nat, pause: bool, c: int, e: nat)
    requires Formed(s) && n < |s.nodes| && cpu < max && Whole(recs) && |last| == PERF_COUNT_NUM && e < PERF_COUNT_NUM
    requires (forall i :: 0 <= i < |s.procs| ==> ProcConserved(s.procs[i])) && Exists(s.procs, h) && DistinctIds(s.procs)
    ensures var o := Pass(s, n, cpu, recs, last, max, pause);
            Exists(o.s.procs, h) && Counted(o.s.procs, h, c, e) == Counted(s.procs, h, c, e) +
              (if c == cpu && !pause then Credit(s.procs, h, last, Chargeable(s.procs, recs), e) else 0)
  {
    hide Pass, SumProcs, Formed, ProcConserved, Chargeable, Credit, DistinctIds;
    if h.All? {
      PassTotals(s, n, cpu, recs, last, max, pause, c, e);
      CreditAll(s.procs, last, Chargeable(s.procs, recs), e);
    } else {
      PassOwners(s, n, cpu, recs, last, max, pause, h, c, e);
    }
  }

  lemma SampleOne(s: State, h: Holder, n: nat, j: nat, batch: seq<Rec>, max: nat, pause: bool, c: nat, e: nat)
    requires Inv(s, max, n, j) && Live(s.nodes, n, j) && Whole(batch) && e < PERF_COUNT_NUM && Exists(s.procs, h) && DistinctIds(s.procs)
    ensures var r := SampleCpu(s, n, j, batch, max, pause); var x := s.nodes[n].cpus[j];
            && Exists(r.procs, h)
            && Counted(r.procs, h, c, e) == Counted(s.procs, h, c, e) +
                 (if x.cpuid == c && !pause && x.mapped && batch != [] then Credit(s.procs, h, batch[0].counts, Chargeable(s.procs, batch[1..]), e) else 0)
            && Later(s, r, n, j + 1) && SameNodes(s, r)
  {
    hide Pass, Counted, Formed, ProcConserved, NodeConserved, Silent, DistinctCpus, OnlySlot, Credit, Chargeable, Exists, DistinctIds;
    var x := s.nodes[n].cpus[j];
    assert NodeFits(s.nodes[n], max) && SlotFits(x, max);
    assert forall i :: 0 <= i < |s.procs| ==> ProcConserved(s.procs[i]);
    OnlyThere(s.nodes, n, j);
    if x.mapped && batch != [] {
      PassCredits(s, h, n, x.cpuid, batch[1..], batch[0].counts, max, pause, c, e);
    }
  }

  lemma VisitOne(s: State, h: Holder, n: nat, j: nat, feed: Feeds, max: nat, pause: bool, c: nat, e: nat)
    requires n < |s.nodes| && j < |s.nodes[n].cpus| && s.nodes[n].valid && Inv(s, max, n, j) && Whole(feed(n, j).batch)
    requires e < PERF_COUNT_NUM && Exists(s.procs, h) && DistinctIds(s.procs)
    ensures var r := VisitCpu(s, n, j, feed, max, pause); var x := s.nodes[n].cpus[j];
            && Exists(r.procs, h)
            && Counted(r.procs, h, c, e) == Counted(s.procs, h, c, e) + (if x.cpuid == c then Amount(s.procs, h, x, feed(n, j), pause, e) else 0)
            && Later(s, r, n, j + 1)
  {
    hide SampleCpu, Counted, Conserved, DistinctCpus, Formed, Silent, Credit, Chargeable, Quiet, DistinctIds;
    var x := s.nodes[n].cpus[j];
    if !x.hotremove {
      var t := SetCpu(s, n, j, SetUp(x, feed(n, j)));
      SetCpuKeeps(s, n, j, SetUp(x, feed(n, j)), max, j);
      if x.cpuid != INVALID_CPUID {
        SampleOne(t, h, n, j, feed(n, j).batch, max, pause, c, e);
      }
    }
  }

  /** Slot j0 of node n0 holds the CPU, and no other does; or none does and it is no slot. */
  ghost predicate Place(nodes: seq<Node>, c: nat, n0: int, j0: int) {
    forall n, j :: Live(nodes, n, j) ==> (nodes[n].cpus[j].cpuid == c <==> n == n0 && j == j0)
  }

  ghost predicate Asked(s: State, c: nat, n0: int, j0: int) {
    Place(s.nodes, c, n0, j0) && DistinctIds(s.procs)
  }

  /** CPU c has been charged for if its slot was visited. */
  ghost predicate Owed(s: State, r: State, h: Holder, c: nat, n0: int, j0: int, n: nat, k: nat, feed: Feeds, pause: bool, e: nat)
    requires Asked(s, c, n0, j0) && Fed(feed) && Exists(s.procs, h) && e < PERF_COUNT_NUM
  {
    Exists(r.procs, h) && Counted(r.procs, h, c, e) ==
      if Live(s.nodes, n0, j0) && (n0 < n || (n0 == n && j0 < k)) then Amount(s.procs, h, s.nodes[n0].cpus[j0], feed(n0, j0), pause, e) else 0
  }

  lemma SameAmount(a: seq<Proc>, b: seq<Proc>, h: Holder, c: Cpu, f: Feed, pause: bool, e: nat)
    requires SameProcs(a, b) && Exists(a, h) && Whole(f.batch) && e < PERF_COUNT_NUM
    ensures Exists(b, h) && Amount(a, h, c, f, pause, e) == Amount(b, h, c, f, pause, e)
  {
    if f.batch != [] {
      SameChargeable(a, b, f.batch[1..]);
      SameCredit(a, b, h, f.batch[0].counts, Chargeable(a, f.batch[1..]), e);
    }
  }

  lemma VisitOwed(s: State, r: State, h: Holder, c: nat, n0: int, j0: int, n: nat, j: nat, feed: Feeds, max: nat, pause: bool, e: nat)
    requires Asked(s, c, n0, j0) && Fed(feed) && Exists(s.procs, h) && e < PERF_COUNT_NUM
    requires n < |r.nodes| && j < |r.nodes[n].cpus| && r.nodes[n].valid && Inv(r, max, n, j)
    requires Later(s, r, n, j) && Owed(s, r, h, c, n0, j0, n, j, feed, pause, e)
    ensures var t := VisitCpu(r, n, j, feed, max, pause); Later(s, t, n, j + 1) && Owed(s, t, h, c, n0, j0, n, j + 1, feed, pause, e)
  {
    hide VisitCpu, Counted, Inv, Amount, Exists, DistinctIds;
    SameDistinct(s.procs, r.procs);
    VisitOne(r, h, n, j, feed, max, pause, c, e);
    SameAmount(s.procs, r.procs, h, s.nodes[n].cpus[j], feed(n, j), pause, e);
    var x := r.nodes[n].cpus[j];
    assert x == s.nodes[n].cpus[j];
    if x.cpuid == c {
      assert Live(s.nodes, n, j);
      assert n == n0 && j == j0;
    }
  }

  lemma {:induction false} CpusOwed(s: State, r: State, h: Holder, c: nat, n0: int, j0: int, n: nat, k: nat, feed: Feeds, max: nat, pause: bool, e: nat)
    requires Asked(s, c, n0, j0) && Fed(feed) && Exists(s.procs, h) && e < PERF_COUNT_NUM
    requires Fit(r, max) && n < |r.nodes| && k <= |r.nodes[n].cpus| && r.nodes[n].valid && Inv(r, max, n, 0)
    requires Later(s, r, n, 0) && Owed(s, r, h, c, n0, j0, n, 0, feed, pause, e)
    ensures var t := VisitCpus(r, n, k, feed, max, pause); Later(s, t, n, k) && Owed(s, t, h, c, n0, j0, n, k, feed, pause, e)
  {
    hide VisitCpu, Inv, Later, Owed, Fit, DistinctCpus, Live, SameSize, Asked;
    if k > 0 {
      CpusOwed(s, r, h, c, n0, j0, n, k - 1, feed, max, pause, e);
      VisitCpusKeeps(r, n, k - 1, feed, max, pause);
      var t := VisitCpus(r, n, k - 1, feed, max, pause);
      assert t.nodes[n].valid && k - 1 < |t.nodes[n].cpus| by { SameAt(r, t, n); }
      VisitOwed(s, t, h, c, n0, j0, n, k - 1, feed, max, pause, e);
    }
  }

  lemma SameAt(r: State, t: State, n: nat)
    requires SameNodes(r, t) && n < |r.nodes|
    ensures n < |t.nodes| && t.nodes[n].valid == r.nodes[n].valid && |t.nodes[n].cpus| == |r.nodes[n].cpus|
  {
  }

  lemma NodeOwed(s: State, r: State, h: Holder, c: nat, n0: int, j0: int, n: nat, feed: Feeds, max: nat, pause: bool, e: nat)
    requires Asked(s, c, n0, j0) && Fed(feed) && Exists(s.procs, h) && e < PERF_COUNT_NUM
    requires Fit(r, max) && n < |r.nodes| && Inv(r, max, n, 0)
    requires Later(s, r, n, 0) && Owed(s, r, h, c, n0, j0, n, 0, feed, pause, e)
    ensures var t := VisitNode(r, n, feed, max, pause); Later(s, t, n + 1, 0) && Owed(s, t, h, c, n0, j0, n + 1, 0, feed, pause, e)
  {
    hide VisitCpus, Inv, DistinctCpus, SumProcs, Amount, Fit, SameProcs;
    if r.nodes[n].valid {
      CpusOwed(s, r, h, c, n0, j0, n, |r.nodes[n].cpus|, feed, max, pause, e);
    }
  }

  lemma {:induction false} NodesOwed(s: State, h: Holder, c: nat, n0: int, j0: int, k: nat, feed: Feeds, max: nat, pause: bool, e: nat)
    requires Asked(s, c, n0, j0) && Fed(feed) && Exists(s.procs, h) && e < PERF_COUNT_NUM
    requires Fit(s, max) && Inv(s, max, 0, 0) && k <= |s.nodes| && Counted(s.procs, h, c, e) == 0
    ensures var t := VisitNodes(s, k, feed, max, pause); Later(s, t, k, 0) && Owed(s, t, h, c, n0, j0, k, 0, feed, pause, e)
  {
    hide *;
    if k == 0 {
      VisitNoNodes(s, feed, max, pause);
      NothingOwed(s, h, c, n0, j0, feed, max, pause, e);
    } else {
      VisitNodesStep(s, k, feed, max, pause);
      NodesOwed(s, h, c, n0, j0, k - 1, feed, max, pause, e);
      VisitNodesKeeps(s, k - 1, feed, max, pause);
      NodeOwed(s, VisitNodes(s, k - 1, feed, max, pause), h, c, n0, j0, k - 1, feed, max, pause, e);
    }
  }

  lemma VisitNoNodes(s: State, feed: Feeds, max: nat, pause: bool)
    requires Fit(s, max) && Fed(feed)
    ensures VisitNodes(s, 0, feed, max, pause) == s
  {
  }

  lemma VisitNodesStep(s: State, k: nat, feed: Feeds, max: nat, pause: bool)
    requires Fit(s, max) && 0 < k <= |s.nodes| && Fed(feed)
    ensures var r := VisitNodes(s, k - 1, feed, max, pause);
            Fit(r, max) && |r.nodes| == |s.nodes| && VisitNodes(s, k, feed, max, pause) == VisitNode(r, k - 1, feed, max, pause)
  {
  }

  lemma NothingOwed(s: State, h: Holder, c: nat, n0: int, j0: int, feed: Feeds, max: nat, pause: bool, e: nat)
    requires Asked(s, c, n0, j0) && Fed(feed) && Exists(s.procs, h) && e < PERF_COUNT_NUM && Inv(s, max, 0, 0) && Counted(s.procs, h, c, e) == 0
    ensures Later(s, s, 0, 0) && Owed(s, s, h, c, n0, j0, 0, 0, feed, pause, e)
  {
    hide Amount, Counted, Inv;
  }

  lemma ClearedCounted(s: State, h: Holder, c: int, e: nat)
    requires Exists(s.procs, h)
    ensures Exists(Cleared(s).procs, h) && Counted(Cleared(s).procs, h, c, e) == 0
  {
    hide Zeros;
    NoProcCounts(Cleared(s).procs, c, e);
  }

  /** After a whole sample the counts on a CPU of any process, of any thread, and of all
      together are what the records of the slot holding it come to, those bearing their ids;
      there are none on a CPU that no slot held. */
  lemma SampleAdds(s: State, h: Holder, c: nat, n: int, j: int, feed: Feeds, max: nat, pause: bool, e: nat)
    requires Fit(s, max) && DistinctCpus(s.nodes) && Place(s.nodes, c, n, j) && Fed(feed) && e < PERF_COUNT_NUM
    requires Exists(s.procs, h) && DistinctIds(s.procs)
    ensures Fit(Cleared(s), max)
    ensures var r := VisitNodes(Cleared(s), |s.nodes|, feed, max, pause);
            Exists(r.procs, h) && Counted(r.procs, h, c, e) ==
              if Live(s.nodes, n, j) then Amount(s.procs, h, s.nodes[n].cpus[j], feed(n, j), pause, e) else 0
  {
    hide Formed, Counted, Conserved, VisitNodes, Amount, Zeros, Shaped, Quiet, DistinctIds, Exists, DistinctCpus;
    var t := Cleared(s);
    ClearedInv(s, max);
    ClearedCounted(s, h, c, e);
    assert SameProcs(s.procs, t.procs);
    SameDistinct(s.procs, t.procs);
    assert forall n', j' :: Live(t.nodes, n', j') ==> Live(s.nodes, n', j') && t.nodes[n'].cpus == s.nodes[n'].cpus;
    if Live(s.nodes, n, j) {
      assert t.nodes[n].cpus == s.nodes[n].cpus && Live(t.nodes, n, j);
      SameAmount(s.procs, t.procs, h, s.nodes[n].cpus[j], feed(n, j), pause, e);
    }
    NodesOwed(t, h, c, n, j, |s.nodes|, feed, max, pause, e);
  }
}
