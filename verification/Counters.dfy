/**
 Counter attribution: the deltas between successive records of a CPU are charged to the
 record's process, its thread and the CPU's node.
 */
module Counters {
  import opened Basics
  import opened Ring

  const INVALID_ID := 0xFFFF_FFFF

  /** `countval_arr`: per CPU id, a value for each event. */
  type Counts = seq<seq<nat>>

  datatype Lwp = Lwp(id: nat, counts: Counts)
  datatype Proc = Proc(pid: nat, counts: Counts, lwps: seq<Lwp>)
  datatype Cpu = Cpu(cpuid: int, mapped: bool, hotadd: bool, hotremove: bool, last: seq<nat>)
  datatype Node = Node(valid: bool, hotremove: bool, cpus: seq<Cpu>, countval: seq<nat>)

  predicate Shaped(c: Counts) {
    forall i :: 0 <= i < |c| ==> |c[i]| == PERF_COUNT_NUM
  }

  function At(c: Counts, cpu: int, e: nat): nat {
    if 0 <= cpu < |c| && e < |c[cpu]| then c[cpu][e] else 0
  }

  const ZERO: seq<nat> := [0, 0, 0, 0, 0]

  /** The array has grown to hold `cpu`, zeroed. */
  function Grown(c: Counts, cpu: nat, max: nat): (r: Counts)
    requires Shaped(c) && cpu < max
    ensures Shaped(r) && cpu < |r|
    ensures forall i: int, e :: At(r, i, e) == At(c, i, e)
  {
    if cpu < |c| then c else c + seq(max - |c|, _ => ZERO)
  }

  /** `proc_countval_update` and `lwp_countval_update`. */
  function Bump(c: Counts, cpu: nat, e: nat, v: nat, max: nat): (r: Counts)
    requires Shaped(c) && cpu < max && e < PERF_COUNT_NUM
    ensures Shaped(r)
    ensures forall i: int, f :: At(r, i, f) == At(c, i, f) + if i == cpu && f == e then v else 0
  {
    var g := Grown(c, cpu, max);
    var row: seq<nat> := g[cpu];
    g[cpu := row[e := row[e] + v]]
  }

  // ---------------------------------------------------------------------------
  // Deltas

  /** `countval_diff`: a counter that went back counts nothing. */
  function Diff(last: seq<nat>, now: seq<nat>): (d: seq<nat>)
    requires |last| == |now| == PERF_COUNT_NUM
    ensures |d| == PERF_COUNT_NUM
  {
    seq(PERF_COUNT_NUM, e requires 0 <= e < PERF_COUNT_NUM => if last[e] <= now[e] then now[e] - last[e] else 0)
  }

  predicate Skipped(r: Rec) {
    r.pid == INVALID_ID || r.tid == INVALID_ID
  }

  predicate Whole(recs: seq<Rec>) {
    forall i :: 0 <= i < |recs| ==> |recs[i].counts| == PERF_COUNT_NUM
  }

  function FindProc(procs: seq<Proc>, pid: nat): (k: int)
    ensures -1 <= k < |procs| && (k >= 0 ==> procs[k].pid == pid)
    ensures k < 0 ==> forall i :: 0 <= i < |procs| ==> procs[i].pid != pid
  {
    if procs == [] then -1
    else if procs[|procs| - 1].pid == pid then |procs| - 1
    else
      var k := FindProc(procs[..|procs| - 1], pid);
      assert forall i :: 0 <= i < |procs| - 1 ==> procs[..|procs| - 1][i] == procs[i];
      k
  }

  function FindLwp(lwps: seq<Lwp>, tid: nat): (k: int)
    ensures -1 <= k < |lwps| && (k >= 0 ==> lwps[k].id == tid)
    ensures k < 0 ==> forall i :: 0 <= i < |lwps| ==> lwps[i].id != tid
  {
    if lwps == [] then -1
    else if lwps[|lwps| - 1].id == tid then |lwps| - 1
    else
      var k := FindLwp(lwps[..|lwps| - 1], tid);
      assert forall i :: 0 <= i < |lwps| - 1 ==> lwps[..|lwps| - 1][i] == lwps[i];
      k
  }

  predicate Known(procs: seq<Proc>, r: Rec) {
    var k := FindProc(procs, r.pid);
    k >= 0 && FindLwp(procs[k].lwps, r.tid) >= 0
  }

  // ---------------------------------------------------------------------------
  // Charging

  datatype State = State(procs: seq<Proc>, nodes: seq<Node>)

  predicate ProcFormed(p: Proc) {
    Shaped(p.counts) && forall j :: 0 <= j < |p.lwps| ==> Shaped(p.lwps[j].counts)
  }

  predicate Formed(s: State) {
    && (forall i :: 0 <= i < |s.procs| ==> ProcFormed(s.procs[i]))
    && (forall n :: 0 <= n < |s.nodes| ==> |s.nodes[n].countval| == PERF_COUNT_NUM)
  }

  /** The same processes, threads and slots; only counts differ. */
  predicate SameTables(s: State, r: State) {
    && SameProcs(s.procs, r.procs) && |r.nodes| == |s.nodes|
    && (forall n :: 0 <= n < |s.nodes| ==> r.nodes[n] == s.nodes[n].(countval := r.nodes[n].countval))
  }

  predicate SameProcs(a: seq<Proc>, b: seq<Proc>) {
    |a| == |b| && forall i :: 0 <= i < |a| ==> SameProc(a[i], b[i])
  }

  predicate SameProc(p: Proc, q: Proc) {
    && p.pid == q.pid && |p.lwps| == |q.lwps|
    && forall j :: 0 <= j < |p.lwps| ==> p.lwps[j].id == q.lwps[j].id
  }

  /** Where a record's delta goes: a node, a process of the table and one of its threads. */
  datatype Target = Target(node: nat, proc: nat, lwp: nat, cpu: nat)

  predicate InRange(s: State, t: Target, max: nat) {
    t.node < |s.nodes| && t.proc < |s.procs| && t.lwp < |s.procs[t.proc].lwps| && t.cpu < max
  }

  /** One event's delta added to the process, the thread and the node. */
  function ChargeOne(s: State, t: Target, e: nat, v: nat, max: nat): (r: State)
    requires Formed(s) && InRange(s, t, max) && e < PERF_COUNT_NUM
    ensures Formed(r) && InRange(r, t, max) && SameTables(s, r)
  {
    var p, m := s.procs[t.proc], s.nodes[t.node];
    var l := p.lwps[t.lwp];
    var l' := l.(counts := Bump(l.counts, t.cpu, e, v, max));
    var p' := p.(counts := Bump(p.counts, t.cpu, e, v, max), lwps := p.lwps[t.lwp := l']);
    var m' := m.(countval := m.countval[e := m.countval[e] + v]);
    State(s.procs[t.proc := p'], s.nodes[t.node := m'])
  }

  /** The first `j` events of a delta. */
  function Charge(s: State, t: Target, diff: seq<nat>, max: nat, j: nat): (r: State)
    requires Formed(s) && InRange(s, t, max) && |diff| == PERF_COUNT_NUM && j <= PERF_COUNT_NUM
    ensures Formed(r) && InRange(r, t, max) && SameTables(s, r)
  {
    if j == 0 then s else ChargeOne(Charge(s, t, diff, max, j - 1), t, j - 1, diff[j - 1], max)
  }

  // ---------------------------------------------------------------------------
  // Conservation

  function SumLwps(lwps: seq<Lwp>, cpu: int, e: nat): nat {
    if lwps == [] then 0 else At(lwps[0].counts, cpu, e) + SumLwps(lwps[1..], cpu, e)
  }

  function SumProcs(procs: seq<Proc>, cpu: int, e: nat): nat {
    if procs == [] then 0 else At(procs[0].counts, cpu, e) + SumProcs(procs[1..], cpu, e)
  }

  /** What the processes have on the CPUs of these slots. */
  function SumSlots(procs: seq<Proc>, cpus: seq<Cpu>, e: nat): nat {
    if cpus == [] then 0
    else (if cpus[0].cpuid == INVALID_CPUID then 0 else SumProcs(procs, cpus[0].cpuid, e)) + SumSlots(procs, cpus[1..], e)
  }

  ghost predicate ProcConserved(p: Proc) {
    forall cpu: int, e: nat :: At(p.counts, cpu, e) == SumLwps(p.lwps, cpu, e)
  }

  ghost predicate NodeConserved(procs: seq<Proc>, m: Node) {
    |m.countval| == PERF_COUNT_NUM && forall e :: 0 <= e < PERF_COUNT_NUM ==> m.countval[e] == SumSlots(procs, m.cpus, e)
  }

  /** Every process's counts are the sums over its threads, and every node's counters
      the sums over the processes of the counts on its CPUs. */
  ghost predicate Conserved(s: State) {
    && (forall i :: 0 <= i < |s.procs| ==> ProcConserved(s.procs[i]))
    && (forall n :: 0 <= n < |s.nodes| && s.nodes[n].valid ==> NodeConserved(s.procs, s.nodes[n]))
  }

  lemma {:induction false} SumLwpsUpdate(lwps: seq<Lwp>, k: nat, l: Lwp, cpu: int, e: nat)
    requires k < |lwps|
    ensures SumLwps(lwps[k := l], cpu, e) == SumLwps(lwps, cpu, e) - At(lwps[k].counts, cpu, e) + At(l.counts, cpu, e)
  {
    if k > 0 {
      assert lwps[k := l][1..] == lwps[1..][k - 1 := l];
      SumLwpsUpdate(lwps[1..], k - 1, l, cpu, e);
    }
  }

  lemma {:induction false} SumProcsUpdate(procs: seq<Proc>, k: nat, p: Proc, cpu: int, e: nat)
    requires k < |procs|
    ensures SumProcs(procs[k := p], cpu, e) == SumProcs(procs, cpu, e) - At(procs[k].counts, cpu, e) + At(p.counts, cpu, e)
  {
    if k > 0 {
      assert procs[k := p][1..] == procs[1..][k - 1 := p];
      SumProcsUpdate(procs[1..], k - 1, p, cpu, e);
    }
  }

  /** If one CPU's total for an event grows by v, the sum over slots grows by v if one
      slot has that CPU, and by nothing if none has. */
  lemma {:induction false} SumSlotsShift(procs: seq<Proc>, procs': seq<Proc>, cpus: seq<Cpu>, e: nat, cpu: nat, v: nat, j: int)
    requires forall c: int :: SumProcs(procs', c, e) == SumProcs(procs, c, e) + if c == cpu then v else 0
    requires forall i :: 0 <= i < |cpus| ==> (cpus[i].cpuid == cpu <==> i == j)
    ensures SumSlots(procs', cpus, e) == SumSlots(procs, cpus, e) + if 0 <= j < |cpus| then v else 0
  {
    if cpus != [] {
      forall i | 0 <= i < |cpus[1..]|
        ensures cpus[1..][i].cpuid == cpu <==> i == j - 1
      {
        assert cpus[1..][i] == cpus[i + 1];
      }
      SumSlotsShift(procs, procs', cpus[1..], e, cpu, v, j - 1);
    }
  }

  lemma ChargeOneProc(s: State, t: Target, e: nat, v: nat, max: nat)
    requires Formed(s) && InRange(s, t, max) && e < PERF_COUNT_NUM
    requires forall i :: 0 <= i < |s.procs| ==> ProcConserved(s.procs[i])
    ensures var r := ChargeOne(s, t, e, v, max);
            && (forall i :: 0 <= i < |r.procs| ==> ProcConserved(r.procs[i]))
            && (forall c: int, f: nat :: SumProcs(r.procs, c, f) == SumProcs(s.procs, c, f) + if c == t.cpu && f == e then v else 0)
  {
    hide Bump;
    var r := ChargeOne(s, t, e, v, max);
    var p, p' := s.procs[t.proc], r.procs[t.proc];
    forall c: int, f: nat
      ensures At(p'.counts, c, f) == SumLwps(p'.lwps, c, f)
    {
      SumLwpsUpdate(p.lwps, t.lwp, p'.lwps[t.lwp], c, f);
    }
    forall c: int, f: nat
      ensures SumProcs(r.procs, c, f) == SumProcs(s.procs, c, f) + if c == t.cpu && f == e then v else 0
    {
      SumProcsUpdate(s.procs, t.proc, p', c, f);
    }
  }

  /** Slot j of node n is the only one with this CPU. */
  predicate OnlySlot(nodes: seq<Node>, n: nat, j: nat, cpu: nat) {
    && n < |nodes| && nodes[n].valid && j < |nodes[n].cpus|
    && forall n', j' :: 0 <= n' < |nodes| && nodes[n'].valid && 0 <= j' < |nodes[n'].cpus| ==>
         (nodes[n'].cpus[j'].cpuid == cpu <==> n' == n && j' == j)
  }

  lemma ChargeOneConserves(s: State, t: Target, e: nat, v: nat, max: nat, j: nat)
    requires Formed(s) && InRange(s, t, max) && e < PERF_COUNT_NUM && Conserved(s)
    requires OnlySlot(s.nodes, t.node, j, t.cpu)
    ensures var r := ChargeOne(s, t, e, v, max); Conserved(r) && OnlySlot(r.nodes, t.node, j, t.cpu)
  {
    hide Bump, ProcConserved;
    var r := ChargeOne(s, t, e, v, max);
    ChargeOneProc(s, t, e, v, max);
    forall n | 0 <= n < |r.nodes| && r.nodes[n].valid
      ensures NodeConserved(r.procs, r.nodes[n])
    {
      assert NodeConserved(s.procs, s.nodes[n]);
      forall f | 0 <= f < PERF_COUNT_NUM
        ensures r.nodes[n].countval[f] == SumSlots(r.procs, r.nodes[n].cpus, f)
      {
        SumSlotsShift(s.procs, r.procs, s.nodes[n].cpus, f, t.cpu, if f == e then v else 0, if n == t.node then j else -1);
      }
    }
  }

  lemma {:induction false} ChargeConserves(s: State, t: Target, diff: seq<nat>, max: nat, k: nat, j: nat)
    requires Formed(s) && InRange(s, t, max) && |diff| == PERF_COUNT_NUM && k <= PERF_COUNT_NUM && Conserved(s)
    requires OnlySlot(s.nodes, t.node, j, t.cpu)
    ensures var r := Charge(s, t, diff, max, k); Conserved(r) && OnlySlot(r.nodes, t.node, j, t.cpu)
  {
    hide ChargeOne, Conserved, OnlySlot;
    if k > 0 {
      ChargeConserves(s, t, diff, max, k - 1, j);
      ChargeOneConserves(Charge(s, t, diff, max, k - 1), t, k - 1, diff[k - 1], max, j);
    }
  }

  // ---------------------------------------------------------------------------
  // One CPU's pass

  /** The state after a pass, the counters it ends on, and the records it charged. */
  datatype PassOut = PassOut(s: State, last: seq<nat>, charged: seq<Rec>)

  /** The loop of `cpu_profiling_smpl` over the records after the first: an invalid id
      skips a record, an unknown process or thread ends the pass. */
  function Pass(s: State, n: nat, cpu: nat, recs: seq<Rec>, last: seq<nat>, max: nat, pause: bool): (o: PassOut)
    requires Formed(s) && n < |s.nodes| && cpu < max && Whole(recs) && |last| == PERF_COUNT_NUM
    ensures Formed(o.s) && SameTables(s, o.s) && |o.last| == PERF_COUNT_NUM
    decreases recs
  {
    if recs == [] then PassOut(s, last, [])
    else
      var r := recs[0];
      if Skipped(r) then Pass(s, n, cpu, recs[1..], last, max, pause)
      else if !Known(s.procs, r) then PassOut(s, r.counts, [])
      else
        var p := FindProc(s.procs, r.pid);
        var t := Target(n, p, FindLwp(s.procs[p].lwps, r.tid), cpu);
        var s' := if pause then s else Charge(s, t, Diff(last, r.counts), max, PERF_COUNT_NUM);
        var o := Pass(s', n, cpu, recs[1..], r.counts, max, pause);
        o.(charged := [r] + o.charged)
  }

  lemma {:induction false} PassConserves(s: State, n: nat, cpu: nat, recs: seq<Rec>, last: seq<nat>, max: nat, pause: bool, j: nat)
    requires Formed(s) && n < |s.nodes| && cpu < max && Whole(recs) && |last| == PERF_COUNT_NUM
    requires Conserved(s) && OnlySlot(s.nodes, n, j, cpu)
    ensures Conserved(Pass(s, n, cpu, recs, last, max, pause).s)
    decreases recs
  {
    hide Conserved, OnlySlot, Charge, Formed, SameTables;
    if recs != [] {
      var r := recs[0];
      if Skipped(r) {
        PassConserves(s, n, cpu, recs[1..], last, max, pause, j);
      } else if Known(s.procs, r) {
        var p := FindProc(s.procs, r.pid);
        var t := Target(n, p, FindLwp(s.procs[p].lwps, r.tid), cpu);
        var s' := if pause then s else Charge(s, t, Diff(last, r.counts), max, PERF_COUNT_NUM);
        if !pause {
          ChargeConserves(s, t, Diff(last, r.counts), max, PERF_COUNT_NUM, j);
        }
        PassConserves(s', n, cpu, recs[1..], r.counts, max, pause, j);
      }
    }
  }

  // ---------------------------------------------------------------------------
  // What a pass adds up to

  /** The sum of the deltas between successive records, starting from `last`. */
  function Total(last: seq<nat>, recs: seq<Rec>, e: nat): nat
    requires |last| == PERF_COUNT_NUM && Whole(recs) && e < PERF_COUNT_NUM
    decreases recs
  {
    if recs == [] then 0 else Diff(last, recs[0].counts)[e] + Total(recs[0].counts, recs[1..], e)
  }

  function End(last: seq<nat>, recs: seq<Rec>): seq<nat> {
    if recs == [] then last else recs[|recs| - 1].counts
  }

  predicate NeverFalls(last: seq<nat>, recs: seq<Rec>, e: nat)
    requires |last| == PERF_COUNT_NUM && Whole(recs) && e < PERF_COUNT_NUM
    decreases recs
  {
    recs != [] ==> last[e] <= recs[0].counts[e] && NeverFalls(recs[0].counts, recs[1..], e)
  }

  /** The deltas telescope to last minus first if and only if the counter never falls;
      otherwise they come to more. */
  lemma {:induction false} TelescopesIff(last: seq<nat>, recs: seq<Rec>, e: nat)
    requires |last| == PERF_COUNT_NUM && Whole(recs) && e < PERF_COUNT_NUM
    ensures |End(last, recs)| == PERF_COUNT_NUM && Total(last, recs, e) + last[e] >= End(last, recs)[e]
    ensures Total(last, recs, e) + last[e] == End(last, recs)[e] <==> NeverFalls(last, recs, e)
    decreases recs
  {
    if recs != [] {
      TelescopesIff(recs[0].counts, recs[1..], e);
      assert End(last, recs) == End(recs[0].counts, recs[1..]);
    }
  }

  /** The records a pass charges: those with valid ids, up to the first unknown one. */
  function Chargeable(procs: seq<Proc>, recs: seq<Rec>): (r: seq<Rec>)
    ensures Whole(recs) ==> Whole(r)
  {
    if recs == [] then []
    else if Skipped(recs[0]) then Chargeable(procs, recs[1..])
    else if !Known(procs, recs[0]) then []
    else [recs[0]] + Chargeable(procs, recs[1..])
  }

  /** A pass goes on past the record: it has no valid ids, or its thread is known. */
  predicate GoesOn(procs: seq<Proc>, r: Rec) {
    r.pid == 0xFFFF_FFFF || r.tid == 0xFFFF_FFFF || (FindProc(procs, r.pid) >= 0 && FindLwp(procs[FindProc(procs, r.pid)].lwps, r.tid) >= 0)
  }

  predicate AllGoOn(procs: seq<Proc>, recs: seq<Rec>) {
    forall i :: 0 <= i < |recs| ==> GoesOn(procs, recs[i])
  }

  lemma GoOnFront(procs: seq<Proc>, recs: seq<Rec>)
    requires recs != []
    ensures AllGoOn(procs, recs) <==> GoesOn(procs, recs[0]) && AllGoOn(procs, recs[1..])
  {
    hide GoesOn;
    assert forall i :: 0 < i < |recs| ==> recs[i] == recs[1..][i - 1];
  }

  /** A single record is charged exactly if its ids are valid and known. */
  lemma ChargeableOne(procs: seq<Proc>, r: Rec)
    ensures Chargeable(procs, [r]) == if r.pid != 0xFFFF_FFFF && r.tid != 0xFFFF_FFFF && GoesOn(procs, r) then [r] else []
  {
    hide FindProc, FindLwp;
    assert [r][1..] == [];
  }

  lemma GoesOnIs(procs: seq<Proc>, r: Rec)
    ensures GoesOn(procs, r) <==> Skipped(r) || Known(procs, r)
  {
    hide FindProc, FindLwp;
  }

  /** Records are charged one batch after the other, until a record that a pass does not go
      on past. */
  lemma {:induction false} ChargeableSplit(procs: seq<Proc>, a: seq<Rec>, b: seq<Rec>)
    ensures Chargeable(procs, a + b) == Chargeable(procs, a) + if AllGoOn(procs, a) then Chargeable(procs, b) else []
    decreases a
  {
    hide GoesOn, Skipped, Known, AllGoOn;
    if a == [] {
      assert a + b == b;
      NoneGoOn(procs);
    } else {
      assert (a + b)[1..] == a[1..] + b;
      GoOnFront(procs, a);
      GoesOnIs(procs, a[0]);
      ChargeableSplit(procs, a[1..], b);
    }
  }

  lemma NoneGoOn(procs: seq<Proc>)
    ensures AllGoOn(procs, [])
  {
  }

  lemma {:induction false} SameLookups(a: seq<Proc>, b: seq<Proc>, pid: nat)
    requires SameProcs(a, b)
    ensures FindProc(a, pid) == FindProc(b, pid)
  {
    if a != [] {
      SameLookups(a[..|a| - 1], b[..|b| - 1], pid);
    }
  }

  lemma {:induction false} SameThreads(a: seq<Lwp>, b: seq<Lwp>, tid: nat)
    requires |a| == |b| && forall i :: 0 <= i < |a| ==> a[i].id == b[i].id
    ensures FindLwp(a, tid) == FindLwp(b, tid)
  {
    if a != [] {
      SameThreads(a[..|a| - 1], b[..|b| - 1], tid);
    }
  }

  lemma {:induction false} SameChargeable(a: seq<Proc>, b: seq<Proc>, recs: seq<Rec>)
    requires SameProcs(a, b)
    ensures Chargeable(a, recs) == Chargeable(b, recs)
  {
    if recs != [] {
      SameLookups(a, b, recs[0].pid);
      var k := FindProc(a, recs[0].pid);
      if k >= 0 {
        SameThreads(a[k].lwps, b[k].lwps, recs[0].tid);
      }
      SameChargeable(a, b, recs[1..]);
    }
  }

  lemma {:induction false} ChargeTotals(s: State, t: Target, diff: seq<nat>, max: nat, k: nat, c: int, e: nat)
    requires Formed(s) && InRange(s, t, max) && |diff| == PERF_COUNT_NUM && k <= PERF_COUNT_NUM && e < PERF_COUNT_NUM
    requires forall i :: 0 <= i < |s.procs| ==> ProcConserved(s.procs[i])
    ensures var r := Charge(s, t, diff, max, k); var v := if e < k then diff[e] else 0;
            && (forall i :: 0 <= i < |r.procs| ==> ProcConserved(r.procs[i]))
            && SumProcs(r.procs, c, e) == SumProcs(s.procs, c, e) + (if c == t.cpu then v else 0)
            && |s.nodes[t.node].countval| == |r.nodes[t.node].countval| == PERF_COUNT_NUM
            && r.nodes[t.node].countval[e] == s.nodes[t.node].countval[e] + v
  {
    hide Bump, ProcConserved, SumProcs;
    if k > 0 {
      ChargeTotals(s, t, diff, max, k - 1, c, e);
      ChargeOneProc(Charge(s, t, diff, max, k - 1), t, k - 1, diff[k - 1], max);
    }
  }

  /** One pass charges each chargeable record the delta since the one before it: the
      totals over processes on this CPU, and the node's counter, grow by their sum, and
      nothing changes on other CPUs. During a partial pause nothing grows. */
  lemma {:induction false} PassTotals(s: State, n: nat, cpu: nat, recs: seq<Rec>, last: seq<nat>, max: nat, pause: bool, c: int, e: nat)
    requires Formed(s) && n < |s.nodes| && cpu < max && Whole(recs) && |last| == PERF_COUNT_NUM && e < PERF_COUNT_NUM
    requires forall i :: 0 <= i < |s.procs| ==> ProcConserved(s.procs[i])
    ensures var o := Pass(s, n, cpu, recs, last, max, pause);
            && o.charged == Chargeable(s.procs, recs) && Whole(o.charged)
            && var v := if pause then 0 else Total(last, o.charged, e);
            && SumProcs(o.s.procs, c, e) == SumProcs(s.procs, c, e) + (if c == cpu then v else 0)
            && |s.nodes[n].countval| == |o.s.nodes[n].countval| == PERF_COUNT_NUM
            && o.s.nodes[n].countval[e] == s.nodes[n].countval[e] + v
    decreases recs
  {
    hide Charge, ProcConserved, SumProcs, FindProc, FindLwp;
    if recs != [] {
      var r := recs[0];
      if Skipped(r) {
        PassTotals(s, n, cpu, recs[1..], last, max, pause, c, e);
      } else if Known(s.procs, r) {
        var p := FindProc(s.procs, r.pid);
        var t := Target(n, p, FindLwp(s.procs[p].lwps, r.tid), cpu);
        var s' := if pause then s else Charge(s, t, Diff(last, r.counts), max, PERF_COUNT_NUM);
        if !pause {
          ChargeTotals(s, t, Diff(last, r.counts), max, PERF_COUNT_NUM, c, e);
          SameChargeable(s.procs, s'.procs, recs[1..]);
        }
        PassTotals(s', n, cpu, recs[1..], r.counts, max, pause, c, e);
        var o := Pass(s', n, cpu, recs[1..], r.counts, max, pause);
        assert ([r] + o.charged)[1..] == o.charged;
      }
    }
  }

  // ---------------------------------------------------------------------------
  // Whose counts grow

  /** Pids are distinct, and so are the ids of a process's threads. */
  predicate DistinctIds(procs: seq<Proc>) {
    && (forall i, j :: 0 <= i < j < |procs| ==> procs[i].pid != procs[j].pid)
    && forall i :: 0 <= i < |procs| ==> DistinctThreads(procs[i].lwps)
  }

  predicate DistinctThreads(lwps: seq<Lwp>) {
    forall i, j :: 0 <= i < j < |lwps| ==> lwps[i].id != lwps[j].id
  }

  /** Whose counts: those of all processes, of one, or of one thread. */
  datatype Holder = All | OfProc(i: nat) | OfLwp(i: nat, j: nat)

  predicate Exists(procs: seq<Proc>, h: Holder) {
    && (!h.All? ==> h.i < |procs|)
    && (h.OfLwp? ==> h.j < |procs[h.i].lwps|)
  }

  function Counted(procs: seq<Proc>, h: Holder, c: int, e: nat): nat
    requires Exists(procs, h)
  {
    match h
    case All => SumProcs(procs, c, e)
    case OfProc(i) => At(procs[i].counts, c, e)
    case OfLwp(i, j) => At(procs[i].lwps[j].counts, c, e)
  }

  /** The record bears the holder's own pid, and its own tid. */
  predicate Bears(procs: seq<Proc>, h: Holder, r: Rec)
    requires Exists(procs, h)
  {
    && (!h.All? ==> r.pid == procs[h.i].pid)
    && (h.OfLwp? ==> r.tid == procs[h.i].lwps[h.j].id)
  }

  /** The increments of those records that bear the holder's ids, each since the record
      before it, whosever that was. */
  function Credit(procs: seq<Proc>, h: Holder, last: seq<nat>, recs: seq<Rec>, e: nat): nat
    requires Exists(procs, h) && |last| == PERF_COUNT_NUM && Whole(recs) && e < PERF_COUNT_NUM
    decreases recs
  {
    if recs == [] then 0
    else
      (if Bears(procs, h, recs[0]) then Diff(last, recs[0].counts)[e] else 0) + Credit(procs, h, recs[0].counts, recs[1..], e)
  }

  lemma {:induction false} CreditAll(procs: seq<Proc>, last: seq<nat>, recs: seq<Rec>, e: nat)
    requires |last| == PERF_COUNT_NUM && Whole(recs) && e < PERF_COUNT_NUM
    ensures Credit(procs, All, last, recs, e) == Total(last, recs, e)
    decreases recs
  {
    if recs != [] {
      CreditAll(procs, recs[0].counts, recs[1..], e);
    }
  }

  lemma {:induction false} SameCredit(a: seq<Proc>, b: seq<Proc>, h: Holder, last: seq<nat>, recs: seq<Rec>, e: nat)
    requires SameProcs(a, b) && Exists(a, h) && |last| == PERF_COUNT_NUM && Whole(recs) && e < PERF_COUNT_NUM
    ensures Exists(b, h) && Credit(a, h, last, recs, e) == Credit(b, h, last, recs, e)
    decreases recs
  {
    if recs != [] {
      SameCredit(a, b, h, recs[0].counts, recs[1..], e);
    }
  }

  predicate Hits(h: Holder, t: Target)
    requires !h.All?
  {
    h.i == t.proc && (h.OfLwp? ==> h.j == t.lwp)
  }

  lemma ChargeOneOwner(s: State, t: Target, d: nat, v: nat, max: nat, h: Holder, c: int, e: nat)
    requires Formed(s) && InRange(s, t, max) && d < PERF_COUNT_NUM && Exists(s.procs, h) && !h.All?
    ensures var r := ChargeOne(s, t, d, v, max);
            Exists(r.procs, h) && Counted(r.procs, h, c, e) == Counted(s.procs, h, c, e) + if Hits(h, t) && c == t.cpu && e == d then v else 0
    ensures forall m :: 0 <= m < |s.nodes| && m != t.node ==> ChargeOne(s, t, d, v, max).nodes[m] == s.nodes[m]
  {
    hide Bump;
  }

  lemma {:induction false} ChargeOwner(s: State, t: Target, diff: seq<nat>, max: nat, k: nat, h: Holder, c: int, e: nat)
    requires Formed(s) && InRange(s, t, max) && |diff| == PERF_COUNT_NUM && k <= PERF_COUNT_NUM && e < PERF_COUNT_NUM
    requires Exists(s.procs, h) && !h.All?
    ensures var r := Charge(s, t, diff, max, k);
            Exists(r.procs, h) && Counted(r.procs, h, c, e) == Counted(s.procs, h, c, e) + if Hits(h, t) && c == t.cpu && e < k then diff[e] else 0
    ensures forall m :: 0 <= m < |s.nodes| && m != t.node ==> Charge(s, t, diff, max, k).nodes[m] == s.nodes[m]
  {
    hide ChargeOne, Counted, Formed;
    if k > 0 {
      ChargeOwner(s, t, diff, max, k - 1, h, c, e);
      ChargeOneOwner(Charge(s, t, diff, max, k - 1), t, k - 1, diff[k - 1], max, h, c, e);
    }
  }

  /** With distinct ids the record found is borne by exactly the process and the thread it
      is charged to. */
  lemma FoundBears(procs: seq<Proc>, r: Rec, h: Holder, t: Target)
    requires DistinctIds(procs) && Known(procs, r) && Exists(procs, h) && !h.All?
    requires t.proc == FindProc(procs, r.pid) && t.lwp == FindLwp(procs[t.proc].lwps, r.tid)
    ensures Bears(procs, h, r) <==> Hits(h, t)
  {
    hide FindProc, FindLwp;
    assert procs[h.i].pid == procs[t.proc].pid <==> h.i == t.proc;
    if h.OfLwp? && h.i == t.proc {
      assert DistinctThreads(procs[h.i].lwps);
    }
  }

  lemma SameDistinct(a: seq<Proc>, b: seq<Proc>)
    requires SameProcs(a, b) && DistinctIds(a)
    ensures DistinctIds(b)
  {
    forall i | 0 <= i < |b|
      ensures DistinctThreads(b[i].lwps)
    {
      assert SameProc(a[i], b[i]) && DistinctThreads(a[i].lwps);
    }
  }

  /** One pass adds to each process and each thread exactly the increments of the charged
      records that bear its own ids, on this CPU only; other nodes are untouched. */
  lemma {:induction false} PassOwners(s: State, n: nat, cpu: nat, recs: seq<Rec>, last: seq<nat>, max: nat, pause: bool, h: Holder, c: int, e: nat)
    requires Formed(s) && n < |s.nodes| && cpu < max && Whole(recs) && |last| == PERF_COUNT_NUM && e < PERF_COUNT_NUM
    requires Exists(s.procs, h) && !h.All? && DistinctIds(s.procs)
    ensures var o := Pass(s, n, cpu, recs, last, max, pause); var own := Chargeable(s.procs, recs);
            && Exists(o.s.procs, h)
            && Counted(o.s.procs, h, c, e) == Counted(s.procs, h, c, e) + (if c == cpu && !pause then Credit(s.procs, h, last, own, e) else 0)
            && forall m :: 0 <= m < |s.nodes| && m != n ==> o.s.nodes[m] == s.nodes[m]
    decreases recs
  {
    hide Charge, Counted, Formed, DistinctIds, Bears, FindProc, FindLwp;
    if recs != [] {
      var r := recs[0];
      if Skipped(r) {
        PassOwners(s, n, cpu, recs[1..], last, max, pause, h, c, e);
      } else if Known(s.procs, r) {
        var p := FindProc(s.procs, r.pid);
        var t := Target(n, p, FindLwp(s.procs[p].lwps, r.tid), cpu);
        var diff := Diff(last, r.counts);
        var s' := if pause then s else Charge(s, t, diff, max, PERF_COUNT_NUM);
        FoundBears(s.procs, r, h, t);
        ChargeOwner(s, t, diff, max, PERF_COUNT_NUM, h, c, e);
        SameDistinct(s.procs, s'.procs);
        SameChargeable(s.procs, s'.procs, recs[1..]);
        var more := Chargeable(s.procs, recs[1..]);
        SameCredit(s.procs, s'.procs, h, r.counts, more, e);
        PassOwners(s', n, cpu, recs[1..], r.counts, max, pause, h, c, e);
        assert ([r] + more)[1..] == more;
      }
    }
  }

  /** A pass ends on the last record with valid ids it looked at, an unknown one included. */
  function LookedAt(procs: seq<Proc>, recs: seq<Rec>): seq<Rec> {
    if recs == [] then []
    else if Skipped(recs[0]) then LookedAt(procs, recs[1..])
    else if !Known(procs, recs[0]) then [recs[0]]
    else [recs[0]] + LookedAt(procs, recs[1..])
  }

  lemma {:induction false} PassEnds(s: State, n: nat, cpu: nat, recs: seq<Rec>, last: seq<nat>, max: nat, pause: bool)
    requires Formed(s) && n < |s.nodes| && cpu < max && Whole(recs) && |last| == PERF_COUNT_NUM
    ensures Pass(s, n, cpu, recs, last, max, pause).last == End(last, LookedAt(s.procs, recs))
    decreases recs
  {
    hide Charge, Formed, FindProc, FindLwp;
    if recs != [] {
      var r := recs[0];
      if Skipped(r) {
        PassEnds(s, n, cpu, recs[1..], last, max, pause);
      } else if Known(s.procs, r) {
        var p := FindProc(s.procs, r.pid);
        var t := Target(n, p, FindLwp(s.procs[p].lwps, r.tid), cpu);
        var s' := if pause then s else Charge(s, t, Diff(last, r.counts), max, PERF_COUNT_NUM);
        SameLooks(s.procs, s'.procs, recs[1..]);
        PassEnds(s', n, cpu, recs[1..], r.counts, max, pause);
      }
    }
  }

  lemma {:induction false} SameLooks(a: seq<Proc>, b: seq<Proc>, recs: seq<Rec>)
    requires SameProcs(a, b)
    ensures LookedAt(a, recs) == LookedAt(b, recs)
  {
    if recs != [] {
      SameLookups(a, b, recs[0].pid);
      var k := FindProc(a, recs[0].pid);
      if k >= 0 {
        SameThreads(a[k].lwps, b[k].lwps, recs[0].tid);
      }
      SameLooks(a, b, recs[1..]);
    }
  }
}
