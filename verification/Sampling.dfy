/**
 A whole sample: the counts are cleared, then every CPU slot of every node is visited,
 hot-removed slots are emptied, hot-added ones set up, and the records drained from each
 CPU's ring are charged.
 */
module Sampling {
  import opened Basics
  import opened Ring
  import opened Counters

  /** What the outside world supplies for one slot: whether setting a hot-added CPU up
      leaves it mapped, and the records drained from its ring. */
  datatype Feed = Feed(mapped: bool, batch: seq<Rec>)
  type Feeds = (nat, nat) -> Feed

  predicate SlotFits(c: Cpu, max: nat) {
    c.cpuid == INVALID_CPUID || 0 <= c.cpuid < max
  }

  predicate NodeFits(m: Node, max: nat) {
    forall j :: 0 <= j < |m.cpus| ==> SlotFits(m.cpus[j], max)
  }

  /** CPU ids are below the largest seen plus one. */
  predicate Fit(s: State, max: nat) {
    Formed(s) && forall n :: 0 <= n < |s.nodes| ==> NodeFits(s.nodes[n], max)
  }

  ghost predicate Fed(feed: Feeds) {
    forall n: nat, j: nat :: Whole(feed(n, j).batch)
  }

  predicate SameSize(s: State, r: State) {
    |r.procs| == |s.procs| && |r.nodes| == |s.nodes|
    && forall n :: 0 <= n < |s.nodes| ==> |r.nodes[n].cpus| == |s.nodes[n].cpus|
  }

  predicate SameNodes(s: State, r: State) {
    SameSize(s, r) && forall n :: 0 <= n < |s.nodes| ==> r.nodes[n].valid == s.nodes[n].valid && r.nodes[n].hotremove == s.nodes[n].hotremove
  }

  predicate Holds(m: Node, cpu: int) {
    exists j :: 0 <= j < |m.cpus| && m.cpus[j].cpuid == cpu
  }

  /** `node_by_cpu`: the first valid node, from the i-th on, with a slot for the CPU; none
      for an invalid id. */
  function FindNode(nodes: seq<Node>, cpu: int, i: nat): (n: int)
    requires i <= |nodes|
    ensures n == -1 || i <= n < |nodes|
    ensures n >= 0 ==> cpu != INVALID_CPUID && nodes[n].valid && Holds(nodes[n], cpu)
    ensures n < 0 ==> cpu == INVALID_CPUID || forall k :: i <= k < |nodes| && nodes[k].valid ==> !Holds(nodes[k], cpu)
    decreases |nodes| - i
  {
    if cpu == INVALID_CPUID || i == |nodes| then -1
    else if nodes[i].valid && Holds(nodes[i], cpu) then i
    else FindNode(nodes, cpu, i + 1)
  }

  // ---------------------------------------------------------------------------
  // The sample as a function of the state

  function SetCpu(s: State, n: nat, j: nat, c: Cpu): (r: State)
    requires n < |s.nodes| && j < |s.nodes[n].cpus|
    ensures SameSize(s, r) && r.procs == s.procs && r.nodes[n] == s.nodes[n].(cpus := s.nodes[n].cpus[j := c])
    ensures forall i :: 0 <= i < |s.nodes| && i != n ==> r.nodes[i] == s.nodes[i]
    ensures Formed(s) ==> Formed(r)
    ensures forall max :: Fit(s, max) && SlotFits(c, max) ==> Fit(r, max)
  {
    s.(nodes := s.nodes[n := s.nodes[n].(cpus := s.nodes[n].cpus[j := c])])
  }

  /** `cpu_profiling_smpl`: the first drained record is only the base of the deltas. */
  function SampleCpu(s: State, n: nat, j: nat, batch: seq<Rec>, max: nat, pause: bool): (r: State)
    requires Fit(s, max) && n < |s.nodes| && j < |s.nodes[n].cpus| && Whole(batch)
    requires s.nodes[n].cpus[j].cpuid != INVALID_CPUID
    ensures Fit(r, max) && SameNodes(s, r)
  {
    var c := s.nodes[n].cpus[j];
    assert NodeFits(s.nodes[n], max) && SlotFits(c, max);
    var m := FindNode(s.nodes, c.cpuid, 0);
    if !c.mapped || batch == [] || m < 0 then s
    else
      var o := Pass(s, m, c.cpuid, batch[1..], batch[0].counts, max, pause);
      assert forall i :: 0 <= i < |s.nodes| ==> NodeFits(s.nodes[i], max) && o.s.nodes[i].cpus == s.nodes[i].cpus;
      SetCpu(o.s, n, j, c.(last := o.last))
  }

  function SetUp(c: Cpu, f: Feed): Cpu {
    if c.hotadd then c.(hotadd := false, mapped := f.mapped) else c
  }

  /** One slot of the traversal. */
  function VisitCpu(s: State, n: nat, j: nat, feed: Feeds, max: nat, pause: bool): (r: State)
    requires Fit(s, max) && n < |s.nodes| && j < |s.nodes[n].cpus| && Whole(feed(n, j).batch)
    ensures Fit(r, max) && SameNodes(s, r)
  {
    var c := s.nodes[n].cpus[j];
    assert NodeFits(s.nodes[n], max) && SlotFits(c, max);
    if c.hotremove then SetCpu(s, n, j, c.(hotremove := false, cpuid := INVALID_CPUID, mapped := false))
    else
      var r := SetCpu(s, n, j, SetUp(c, feed(n, j)));
      if c.cpuid == INVALID_CPUID then r else SampleCpu(r, n, j, feed(n, j).batch, max, pause)
  }

  function VisitCpus(s: State, n: nat, k: nat, feed: Feeds, max: nat, pause: bool): (r: State)
    requires Fit(s, max) && n < |s.nodes| && k <= |s.nodes[n].cpus| && Fed(feed)
    ensures Fit(r, max) && SameNodes(s, r)
  {
    if k == 0 then s else VisitCpu(VisitCpus(s, n, k - 1, feed, max, pause), n, k - 1, feed, max, pause)
  }

  /** A node, once its slots are visited, is dropped if it was hot-removed. */
  function Drop(s: State, n: nat): (r: State)
    requires n < |s.nodes|
    ensures SameSize(s, r)
    ensures forall max :: Fit(s, max) ==> Fit(r, max)
  {
    var m := s.nodes[n];
    if m.hotremove then
      var r := s.(nodes := s.nodes[n := m.(valid := false, hotremove := false)]);
      assert forall i :: 0 <= i < |s.nodes| ==> r.nodes[i].cpus == s.nodes[i].cpus;
      r
    else s
  }

  function VisitNode(s: State, n: nat, feed: Feeds, max: nat, pause: bool): (r: State)
    requires Fit(s, max) && n < |s.nodes| && Fed(feed)
    ensures Fit(r, max) && SameSize(s, r)
  {
    if s.nodes[n].valid then Drop(VisitCpus(s, n, |s.nodes[n].cpus|, feed, max, pause), n) else s
  }

  /** `node_cpu_traverse` over the first k nodes. */
  function VisitNodes(s: State, k: nat, feed: Feeds, max: nat, pause: bool): (r: State)
    requires Fit(s, max) && k <= |s.nodes| && Fed(feed)
    ensures Fit(r, max) && SameSize(s, r)
  {
    if k == 0 then s else VisitNode(VisitNodes(s, k - 1, feed, max, pause), k - 1, feed, max, pause)
  }

  /** A slot of a valid node, holding a CPU. */
  predicate Live(nodes: seq<Node>, n: int, j: int) {
    && 0 <= n < |nodes| && nodes[n].valid && 0 <= j < |nodes[n].cpus|
    && nodes[n].cpus[j].cpuid != INVALID_CPUID
  }

  /** All slots of valid nodes that hold a CPU hold different CPUs. */
  ghost predicate DistinctCpus(nodes: seq<Node>) {
    forall n, j, n', j' :: Live(nodes, n, j) && Live(nodes, n', j') && (n != n' || j != j') ==>
      nodes[n].cpus[j].cpuid != nodes[n'].cpus[j'].cpuid
  }

  ghost predicate Silent(procs: seq<Proc>, cpu: int) {
    forall e :: 0 <= e < PERF_COUNT_NUM ==> SumProcs(procs, cpu, e) == 0
  }

  /** Nothing has yet been charged on the CPUs of the slots still to be visited. */
  ghost predicate Quiet(s: State, n: int, j: int) {
    forall n', j' :: Live(s.nodes, n', j') && (n' > n || (n' == n && j' >= j)) ==> Silent(s.procs, s.nodes[n'].cpus[j'].cpuid)
  }

  /** What every step of the traversal keeps. */
  ghost predicate Inv(s: State, max: nat, n: int, j: int) {
    Fit(s, max) && Conserved(s) && DistinctCpus(s.nodes) && Quiet(s, n, j)
  }

  function Share(procs: seq<Proc>, c: Cpu, e: nat): nat {
    if c.cpuid == INVALID_CPUID then 0 else SumProcs(procs, c.cpuid, e)
  }

  lemma {:induction false} SumSlotsUpdate(procs: seq<Proc>, cpus: seq<Cpu>, k: nat, c: Cpu, e: nat)
    requires k < |cpus|
    ensures SumSlots(procs, cpus[k := c], e) == SumSlots(procs, cpus, e) - Share(procs, cpus[k], e) + Share(procs, c, e)
  {
    if k > 0 {
      assert cpus[k := c][1..] == cpus[1..][k - 1 := c];
      SumSlotsUpdate(procs, cpus[1..], k - 1, c, e);
    }
  }

  /** Rewriting a slot keeps the invariant if its CPU stays, or goes before anything was
      charged on it. */
  lemma SetCpuKeeps(s: State, n: nat, j: nat, c: Cpu, max: nat, q: int)
    requires n < |s.nodes| && j < |s.nodes[n].cpus| && s.nodes[n].valid && Inv(s, max, n, q)
    requires c.cpuid == s.nodes[n].cpus[j].cpuid || (c.cpuid == INVALID_CPUID && q <= j)
    ensures Inv(SetCpu(s, n, j, c), max, n, q)
  {
    hide Formed, ProcConserved, SumProcs;
    var r := SetCpu(s, n, j, c);
    assert NodeFits(s.nodes[n], max) && SlotFits(s.nodes[n].cpus[j], max);
    assert NodeConserved(s.procs, s.nodes[n]);
    assert forall i, k :: Live(r.nodes, i, k) ==> Live(s.nodes, i, k) && r.nodes[i].cpus[k].cpuid == s.nodes[i].cpus[k].cpuid;
    forall e | 0 <= e < PERF_COUNT_NUM
      ensures r.nodes[n].countval[e] == SumSlots(r.procs, r.nodes[n].cpus, e)
    {
      SumSlotsUpdate(s.procs, s.nodes[n].cpus, j, c, e);
      assert c.cpuid == INVALID_CPUID ==> Live(s.nodes, n, j) ==> Silent(s.procs, s.nodes[n].cpus[j].cpuid);
    }
    assert NodeConserved(r.procs, r.nodes[n]);
    assert forall i :: 0 <= i < |r.nodes| && i != n && r.nodes[i].valid ==> NodeConserved(s.procs, s.nodes[i]);
  }

  lemma OnlyThere(nodes: seq<Node>, n: nat, j: nat)
    requires Live(nodes, n, j) && nodes[n].cpus[j].cpuid >= 0 && DistinctCpus(nodes)
    ensures OnlySlot(nodes, n, j, nodes[n].cpus[j].cpuid) && FindNode(nodes, nodes[n].cpus[j].cpuid, 0) == n
  {
    var cpu := nodes[n].cpus[j].cpuid;
    var m := FindNode(nodes, cpu, 0);
    assert Holds(nodes[n], cpu);
    forall n', j' | 0 <= n' < |nodes| && nodes[n'].valid && 0 <= j' < |nodes[n'].cpus|
      ensures nodes[n'].cpus[j'].cpuid == cpu <==> n' == n && j' == j
    {
      assert nodes[n'].cpus[j'].cpuid == cpu ==> Live(nodes, n', j');
    }
  }

  /** A pass over a CPU's records charges nothing on the other CPUs. */
  lemma PassElsewhere(s: State, n: nat, j: nat, recs: seq<Rec>, last: seq<nat>, max: nat, pause: bool)
    requires Inv(s, max, n, j) && Live(s.nodes, n, j) && Whole(recs) && |last| == PERF_COUNT_NUM
    requires 0 <= s.nodes[n].cpus[j].cpuid < max
    ensures Inv(Pass(s, n, s.nodes[n].cpus[j].cpuid, recs, last, max, pause).s, max, n, j + 1)
  {
    hide Pass, SumProcs, OnlySlot, Formed, ProcConserved, NodeConserved;
    assert forall i :: 0 <= i < |s.procs| ==> ProcConserved(s.procs[i]);
    hide Conserved;
    var cpu := s.nodes[n].cpus[j].cpuid;
    var o := Pass(s, n, cpu, recs, last, max, pause);
    OnlyThere(s.nodes, n, j);
    PassConserves(s, n, cpu, recs, last, max, pause, j);
    assert forall i :: 0 <= i < |s.nodes| ==> NodeFits(s.nodes[i], max) && NodeFits(o.s.nodes[i], max);
    assert forall i, k :: Live(o.s.nodes, i, k) ==> Live(s.nodes, i, k) && o.s.nodes[i].cpus[k].cpuid == s.nodes[i].cpus[k].cpuid;
    forall n', j' | Live(o.s.nodes, n', j') && (n' > n || (n' == n && j' >= j + 1))
      ensures Silent(o.s.procs, o.s.nodes[n'].cpus[j'].cpuid)
    {
      var c := s.nodes[n'].cpus[j'].cpuid;
      assert Silent(s.procs, c) && c != cpu;
      forall e | 0 <= e < PERF_COUNT_NUM
        ensures SumProcs(o.s.procs, c, e) == 0
      {
        PassTotals(s, n, cpu, recs, last, max, pause, c, e);
      }
    }
  }

  lemma SampleCpuKeeps(s: State, n: nat, j: nat, batch: seq<Rec>, max: nat, pause: bool)
    requires Inv(s, max, n, j) && Live(s.nodes, n, j) && Whole(batch)
    ensures Inv(SampleCpu(s, n, j, batch, max, pause), max, n, j + 1)
  {
    hide Pass, Conserved, DistinctCpus, Formed, Silent;
    var c := s.nodes[n].cpus[j];
    assert NodeFits(s.nodes[n], max) && SlotFits(c, max);
    OnlyThere(s.nodes, n, j);
    if c.mapped && batch != [] {
      var o := Pass(s, n, c.cpuid, batch[1..], batch[0].counts, max, pause);
      PassElsewhere(s, n, j, batch[1..], batch[0].counts, max, pause);
      SetCpuKeeps(o.s, n, j, c.(last := o.last), max, j + 1);
    }
  }

  lemma VisitCpuKeeps(s: State, n: nat, j: nat, feed: Feeds, max: nat, pause: bool)
    requires n < |s.nodes| && j < |s.nodes[n].cpus| && s.nodes[n].valid && Inv(s, max, n, j) && Whole(feed(n, j).batch)
    ensures Inv(VisitCpu(s, n, j, feed, max, pause), max, n, j + 1)
  {
    hide SampleCpu, Conserved, DistinctCpus, Formed, Silent;
    var c := s.nodes[n].cpus[j];
    if c.hotremove {
      SetCpuKeeps(s, n, j, c.(hotremove := false, cpuid := INVALID_CPUID, mapped := false), max, j);
    } else {
      SetCpuKeeps(s, n, j, SetUp(c, feed(n, j)), max, j);
      if c.cpuid != INVALID_CPUID {
        SampleCpuKeeps(SetCpu(s, n, j, SetUp(c, feed(n, j))), n, j, feed(n, j).batch, max, pause);
      }
    }
  }

  lemma {:induction false} VisitCpusKeeps(s: State, n: nat, k: nat, feed: Feeds, max: nat, pause: bool)
    requires Inv(s, max, n, 0) && n < |s.nodes| && s.nodes[n].valid && k <= |s.nodes[n].cpus| && Fed(feed)
    ensures Inv(VisitCpus(s, n, k, feed, max, pause), max, n, k)
  {
    hide Inv, Fit, VisitCpu;
    assert Fit(s, max) by { FitOf(s, max, n, 0); }
    if k > 0 {
      VisitCpusKeeps(s, n, k - 1, feed, max, pause);
      VisitCpuKeeps(VisitCpus(s, n, k - 1, feed, max, pause), n, k - 1, feed, max, pause);
    }
  }

  lemma FitOf(s: State, max: nat, n: int, j: int)
    requires Inv(s, max, n, j)
    ensures Fit(s, max)
  {
  }

  lemma DropKeeps(s: State, n: nat, max: nat)
    requires n < |s.nodes| && Inv(s, max, n, |s.nodes[n].cpus|)
    ensures Inv(Drop(s, n), max, n + 1, 0)
  {
    hide Fit, ProcConserved, NodeConserved, Silent;
    var r := Drop(s, n);
    assert forall i, k :: Live(r.nodes, i, k) ==> Live(s.nodes, i, k) && r.nodes[i].cpus[k].cpuid == s.nodes[i].cpus[k].cpuid;
  }

  lemma {:induction false} VisitNodesKeeps(s: State, k: nat, feed: Feeds, max: nat, pause: bool)
    requires Inv(s, max, 0, 0) && k <= |s.nodes| && Fed(feed)
    ensures Inv(VisitNodes(s, k, feed, max, pause), max, k, 0)
  {
    hide Fit, Conserved, DistinctCpus, Silent, VisitCpus, Drop;
    if k > 0 {
      VisitNodesKeeps(s, k - 1, feed, max, pause);
      var r := VisitNodes(s, k - 1, feed, max, pause);
      if r.nodes[k - 1].valid {
        var m := |r.nodes[k - 1].cpus|;
        VisitCpusKeeps(r, k - 1, m, feed, max, pause);
        DropKeeps(VisitCpus(r, k - 1, m, feed, max, pause), k - 1, max);
      }
    }
  }

  // ---------------------------------------------------------------------------
  // Clearing

  function Zeros(k: nat): (c: Counts)
    ensures Shaped(c) && |c| == k && forall i: int, e :: At(c, i, e) == 0
  {
    seq(k, _ => ZERO)
  }

  function ClearLwp(l: Lwp): Lwp { l.(counts := Zeros(|l.counts|)) }

  /** `profiling_clear` */
  function ClearProc(p: Proc): (q: Proc)
    ensures ProcFormed(q)
  {
    p.(counts := Zeros(|p.counts|), lwps := seq(|p.lwps|, j requires 0 <= j < |p.lwps| => ClearLwp(p.lwps[j])))
  }

  function ClearNode(m: Node): Node { m.(countval := ZERO) }

  function Cleared(s: State): (r: State)
    ensures Formed(r) && SameNodes(s, r)
  {
    State(seq(|s.procs|, i requires 0 <= i < |s.procs| => ClearProc(s.procs[i])),
          seq(|s.nodes|, n requires 0 <= n < |s.nodes| => ClearNode(s.nodes[n])))
  }

  lemma {:induction false} NoLwpCounts(lwps: seq<Lwp>, cpu: int, e: nat)
    requires forall j :: 0 <= j < |lwps| ==> At(lwps[j].counts, cpu, e) == 0
    ensures SumLwps(lwps, cpu, e) == 0
  {
    if lwps != [] {
      assert forall j :: 0 <= j < |lwps[1..]| ==> lwps[1..][j] == lwps[j + 1];
      NoLwpCounts(lwps[1..], cpu, e);
    }
  }

  lemma {:induction false} NoProcCounts(procs: seq<Proc>, cpu: int, e: nat)
    requires forall j :: 0 <= j < |procs| ==> At(procs[j].counts, cpu, e) == 0
    ensures SumProcs(procs, cpu, e) == 0
  {
    if procs != [] {
      assert forall j :: 0 <= j < |procs[1..]| ==> procs[1..][j] == procs[j + 1];
      NoProcCounts(procs[1..], cpu, e);
    }
  }

  lemma {:induction false} NoSlotCounts(procs: seq<Proc>, cpus: seq<Cpu>, e: nat)
    requires forall cpu: int :: SumProcs(procs, cpu, e) == 0
    ensures SumSlots(procs, cpus, e) == 0
  {
    if cpus != [] {
      NoSlotCounts(procs, cpus[1..], e);
    }
  }

  lemma ClearedInv(s: State, max: nat)
    requires Fit(s, max) && DistinctCpus(s.nodes)
    ensures Inv(Cleared(s), max, 0, 0)
  {
    hide Formed, Zeros, Shaped, SumProcs, SumSlots, SumLwps;
    var r := Cleared(s);
    assert forall i :: 0 <= i < |s.nodes| ==> NodeFits(s.nodes[i], max) && r.nodes[i].cpus == s.nodes[i].cpus;
    assert forall i, k :: Live(r.nodes, i, k) ==> Live(s.nodes, i, k) && r.nodes[i].cpus[k].cpuid == s.nodes[i].cpus[k].cpuid;
    forall cpu: int, e: nat
      ensures SumProcs(r.procs, cpu, e) == 0
    {
      NoProcCounts(r.procs, cpu, e);
    }
    forall i | 0 <= i < |r.procs|
      ensures ProcConserved(r.procs[i])
    {
      forall cpu: int, e: nat
        ensures At(r.procs[i].counts, cpu, e) == SumLwps(r.procs[i].lwps, cpu, e)
      {
        NoLwpCounts(r.procs[i].lwps, cpu, e);
      }
    }
    forall n | 0 <= n < |r.nodes|
      ensures NodeConserved(r.procs, r.nodes[n])
    {
      forall e | 0 <= e < PERF_COUNT_NUM
        ensures r.nodes[n].countval[e] == SumSlots(r.procs, r.nodes[n].cpus, e)
      {
        NoSlotCounts(r.procs, r.nodes[n].cpus, e);
      }
    }
  }

  /** Whatever was counted before, a sample over distinct CPUs ends with every process's
      counts the sums over its threads and every node's the sums over its CPUs, however
      early a pass stopped and whatever slots came or went. */
  lemma SampleConserves(s: State, feed: Feeds, max: nat, pause: bool)
    requires Fit(s, max) && DistinctCpus(s.nodes) && Fed(feed)
    ensures Fit(Cleared(s), max)
    ensures var r := VisitNodes(Cleared(s), |s.nodes|, feed, max, pause); Conserved(r) && DistinctCpus(r.nodes)
  {
    hide Cleared, VisitNodes, Conserved, DistinctCpus, Fit;
    ClearedInv(s, max);
    VisitNodesKeeps(Cleared(s), |s.nodes|, feed, max, pause);
  }

  // ---------------------------------------------------------------------------
  // The code

  class Sampler {
    var procs: seq<Proc>
    var nodes: seq<Node>
    var pause: bool

    function St(): State
      reads this
    {
      State(procs, nodes)
    }

    /** `node_by_cpu` */
    method NodeByCpu(cpu: int) returns (n: int)
      ensures n == FindNode(nodes, cpu, 0)
    {
      if cpu == INVALID_CPUID {
        return -1;
      }
      var i := 0;
      while i < |nodes|
        invariant 0 <= i <= |nodes| && FindNode(nodes, cpu, 0) == FindNode(nodes, cpu, i)
      {
        if nodes[i].valid {
          var j := 0;
          while j < |nodes[i].cpus|
            invariant 0 <= j <= |nodes[i].cpus| && forall k :: 0 <= k < j ==> nodes[i].cpus[k].cpuid != cpu
          {
            if cpu == nodes[i].cpus[j].cpuid {
              return i;
            }
            j := j + 1;
          }
        }
        i := i + 1;
      }
      return -1;
    }

    /** The loop over events: process, thread and node. */
    method ChargeEvents(t: Target, diff: seq<nat>, max: nat)
      requires Formed(St()) && InRange(St(), t, max) && |diff| == PERF_COUNT_NUM
      modifies this`procs, this`nodes
      ensures Formed(St()) && InRange(St(), t, max)
      ensures St() == if pause then old(St()) else Charge(old(St()), t, diff, max, PERF_COUNT_NUM)
    {
      hide Formed, SameTables, Bump;
      ghost var s := St();
      var e := 0;
      while e < PERF_COUNT_NUM
        invariant 0 <= e <= PERF_COUNT_NUM && Formed(St()) && InRange(St(), t, max)
        invariant St() == if pause then s else Charge(s, t, diff, max, e)
      {
        if !pause {
          var r := ChargeOne(St(), t, e, diff[e], max);
          procs, nodes := r.procs, r.nodes;
        }
        e := e + 1;
      }
    }

    /** The loop over the records after the base. */
    method ChargeBatch(m: nat, cpu: nat, batch: seq<Rec>, max: nat) returns (last: seq<nat>)
      requires Formed(St()) && m < |nodes| && cpu < max && Whole(batch) && batch != []
      modifies this`procs, this`nodes
      ensures var o := Pass(old(St()), m, cpu, batch[1..], batch[0].counts, max, pause); St() == o.s && last == o.last
    {
      hide Formed, SameTables, Charge, FindProc, FindLwp;
      ghost var want := Pass(St(), m, cpu, batch[1..], batch[0].counts, max, pause);
      last := batch[0].counts;
      var i := 1;
      while i < |batch|
        invariant 1 <= i <= |batch| && Formed(St()) && m < |nodes| && |last| == PERF_COUNT_NUM
        invariant var o := Pass(St(), m, cpu, batch[i..], last, max, pause); o.s == want.s && o.last == want.last
      {
        var r := batch[i];
        assert batch[i..][0] == r && batch[i..][1..] == batch[i + 1..];
        if Skipped(r) {
          i := i + 1;
          continue;
        }
        var diff := Diff(last, r.counts);
        last := r.counts;
        var p := FindProc(procs, r.pid);
        if p < 0 {
          return;
        }
        var l := FindLwp(procs[p].lwps, r.tid);
        if l < 0 {
          return;
        }
        ChargeEvents(Target(m, p, l, cpu), diff, max);
        i := i + 1;
      }
    }

    method PutCpu(n: nat, j: nat, c: Cpu)
      requires n < |nodes| && j < |nodes[n].cpus|
      modifies this`nodes
      ensures St() == SetCpu(old(St()), n, j, c)
    {
      nodes := nodes[n := nodes[n].(cpus := nodes[n].cpus[j := c])];
    }

    /** `cpu_profiling_smpl`, given the drained records. */
    method CpuSmpl(n: nat, j: nat, batch: seq<Rec>, max: nat)
      requires Fit(St(), max) && n < |nodes| && j < |nodes[n].cpus| && Whole(batch)
      requires nodes[n].cpus[j].cpuid != INVALID_CPUID
      modifies this`procs, this`nodes
      ensures St() == SampleCpu(old(St()), n, j, batch, max, pause)
    {
      hide Pass;
      assert NodeFits(nodes[n], max) && SlotFits(nodes[n].cpus[j], max);
      if !nodes[n].cpus[j].mapped || batch == [] {
        return;
      }
      var m := NodeByCpu(nodes[n].cpus[j].cpuid);
      if m < 0 {
        return;
      }
      var last := ChargeBatch(m, nodes[n].cpus[j].cpuid, batch, max);
      PutCpu(n, j, nodes[n].cpus[j].(last := last));
    }

    method VisitSlot(n: nat, j: nat, feed: Feeds, max: nat)
      requires Fit(St(), max) && n < |nodes| && j < |nodes[n].cpus| && Fed(feed)
      modifies this`procs, this`nodes
      ensures St() == VisitCpu(old(St()), n, j, feed, max, pause)
    {
      hide SampleCpu;
      assert NodeFits(nodes[n], max) && SlotFits(nodes[n].cpus[j], max);
      var c := nodes[n].cpus[j];
      if c.hotremove {
        PutCpu(n, j, c.(hotremove := false, cpuid := INVALID_CPUID, mapped := false));
        return;
      }
      if c.hotadd {
        c := c.(hotadd := false, mapped := feed(n, j).mapped);
      }
      PutCpu(n, j, c);
      if c.cpuid != INVALID_CPUID {
        CpuSmpl(n, j, feed(n, j).batch, max);
      }
    }

    method VisitSlots(n: nat, feed: Feeds, max: nat)
      requires Fit(St(), max) && n < |nodes| && nodes[n].valid && Fed(feed)
      modifies this`procs, this`nodes
      ensures St() == VisitNode(old(St()), n, feed, max, pause)
    {
      hide VisitCpu, Fit;
      ghost var s := St();
      var j := 0;
      while j < |nodes[n].cpus|
        invariant 0 <= j <= |s.nodes[n].cpus| && Fit(St(), max) && SameNodes(s, St())
        invariant St() == VisitCpus(s, n, j, feed, max, pause)
      {
        VisitSlot(n, j, feed, max);
        j := j + 1;
      }
      if nodes[n].hotremove {
        nodes := nodes[n := nodes[n].(valid := false, hotremove := false)];
      }
    }

    /** `node_cpu_traverse` */
    method Traverse(feed: Feeds, max: nat)
      requires Fit(St(), max) && Fed(feed)
      modifies this`procs, this`nodes
      ensures St() == VisitNodes(old(St()), |old(nodes)|, feed, max, pause)
    {
      hide Fit, VisitNode;
      ghost var s := St();
      var i := 0;
      while i < |nodes|
        invariant 0 <= i <= |s.nodes| && Fit(St(), max) && SameSize(s, St())
        invariant St() == VisitNodes(s, i, feed, max, pause)
      {
        if nodes[i].valid {
          VisitSlots(i, feed, max);
        } else {
          VisitNodeSkips(St(), i, feed, max, pause);
        }
        i := i + 1;
      }
    }

    /** `proc_profiling_clear` then `node_profiling_clear` */
    method Clear()
      modifies this`procs, this`nodes
      ensures St() == Cleared(old(St()))
    {
      ghost var s := St();
      var i := 0;
      while i < |procs|
        invariant 0 <= i <= |procs| == |s.procs| && nodes == s.nodes
        invariant forall k :: 0 <= k < |procs| ==> procs[k] == if k < i then ClearProc(s.procs[k]) else s.procs[k]
      {
        var lwps := [];
        while |lwps| < |procs[i].lwps|
          invariant |lwps| <= |procs[i].lwps|
          invariant forall k :: 0 <= k < |lwps| ==> lwps[k] == ClearLwp(procs[i].lwps[k])
        {
          lwps := lwps + [ClearLwp(procs[i].lwps[|lwps|])];
        }
        procs := procs[i := procs[i].(counts := Zeros(|procs[i].counts|), lwps := lwps)];
        i := i + 1;
      }
      i := 0;
      while i < |nodes|
        invariant 0 <= i <= |nodes| == |s.nodes| && procs == Cleared(s).procs
        invariant forall k :: 0 <= k < |nodes| ==> nodes[k] == if k < i then ClearNode(s.nodes[k]) else s.nodes[k]
      {
        nodes := nodes[i := ClearNode(nodes[i])];
        i := i + 1;
      }
    }

    /** `os_profiling_smpl` */
    method Sample(feed: Feeds, max: nat)
      requires Fit(St(), max) && DistinctCpus(nodes) && Fed(feed)
      modifies this`procs, this`nodes
      ensures Fit(Cleared(old(St())), max)
      ensures St() == VisitNodes(Cleared(old(St())), |old(nodes)|, feed, max, pause)
      ensures Conserved(St()) && DistinctCpus(nodes)
    {
      hide Cleared, VisitNodes, Conserved, DistinctCpus, Fit;
      SampleConserves(St(), feed, max, pause);
      Clear();
      Traverse(feed, max);
    }
  }

  lemma VisitNodeSkips(s: State, n: nat, feed: Feeds, max: nat, pause: bool)
    requires Fit(s, max) && n < |s.nodes| && Fed(feed) && !s.nodes[n].valid
    ensures VisitNode(s, n, feed, max, pause) == s
  {
  }
}
