/**
 What a whole sample makes of the CPU slots and the nodes: removals are carried out,
 additions set up, and everything else stays.
 */
module SampleSlots {
  import opened Basics
  import opened Ring
  import opened Counters
  import opened Sampling
  import opened SampleTotals

  /** A slot after its visit. */
  predicate SettledSlot(c: Cpu, d: Cpu, f: Feed) {
    && !d.hotremove
    && if c.hotremove then d.cpuid == INVALID_CPUID && !d.mapped && d.hotadd == c.hotadd
       else d.cpuid == c.cpuid && !d.hotadd && d.mapped == Mapped(c, f)
  }

  predicate SettledNode(m: Node, r: Node, n: nat, feed: Feeds) {
    && |r.cpus| == |m.cpus|
    && if m.valid then
         r.valid == !m.hotremove && !r.hotremove && SettledSlots(m, r, n, feed, |m.cpus|)
       else !r.valid && r.hotremove == m.hotremove && r.cpus == m.cpus
  }

  predicate SettledSlots(m: Node, r: Node, n: nat, feed: Feeds, k: nat)
    requires |r.cpus| == |m.cpus| && k <= |m.cpus|
  {
    forall j: nat :: j < k ==> SettledSlot(m.cpus[j], r.cpus[j], feed(n, j))
  }

  /** Node n after its first k slots were visited. */
  predicate PartlySettled(m: Node, r: Node, n: nat, feed: Feeds, k: nat) {
    && |r.cpus| == |m.cpus| && k <= |m.cpus| && r.valid == m.valid && r.hotremove == m.hotremove
    && SettledSlots(m, r, n, feed, k)
    && r.cpus[k..] == m.cpus[k..]
  }

  /** The other nodes are the same but for their counters. */
  predicate OthersStay(s: State, r: State, n: nat) {
    && |r.nodes| == |s.nodes|
    && forall i :: 0 <= i < |s.nodes| && i != n ==> r.nodes[i] == s.nodes[i].(countval := r.nodes[i].countval)
  }

  lemma SampleCpuSlots(s: State, n: nat, j: nat, batch: seq<Rec>, max: nat, pause: bool)
    requires Fit(s, max) && n < |s.nodes| && j < |s.nodes[n].cpus| && Whole(batch)
    requires s.nodes[n].cpus[j].cpuid != INVALID_CPUID
    ensures var r := SampleCpu(s, n, j, batch, max, pause);
            && OthersStay(s, r, n) && r.nodes[n].valid == s.nodes[n].valid && r.nodes[n].hotremove == s.nodes[n].hotremove
            && |r.nodes[n].cpus| == |s.nodes[n].cpus|
            && r.nodes[n].cpus == s.nodes[n].cpus[j := s.nodes[n].cpus[j].(last := r.nodes[n].cpus[j].last)]
  {
    hide Pass, Formed, NodeFits;
    assert NodeFits(s.nodes[n], max);
  }

  /** Sampling leaves in the slot the counters of the last record looked at, or of the first
      one, the base, if there was no other; without records it leaves those from before. */
  lemma SampleCpuLast(s: State, n: nat, j: nat, batch: seq<Rec>, max: nat, pause: bool)
    requires Fit(s, max) && n < |s.nodes| && j < |s.nodes[n].cpus| && Whole(batch)
    requires s.nodes[n].cpus[j].cpuid != INVALID_CPUID
    ensures var r := SampleCpu(s, n, j, batch, max, pause); var c := s.nodes[n].cpus[j];
            |r.nodes| == |s.nodes| && |r.nodes[n].cpus| == |s.nodes[n].cpus| && r.nodes[n].cpus[j].last ==
              if c.mapped && batch != [] && FindNode(s.nodes, c.cpuid, 0) >= 0 then End(batch[0].counts, LookedAt(s.procs, batch[1..]))
              else c.last
  {
    var c, m := s.nodes[n].cpus[j], FindNode(s.nodes, s.nodes[n].cpus[j].cpuid, 0);
    assert NodeFits(s.nodes[n], max) && SlotFits(c, max);
    hide Pass, Formed, NodeFits, LookedAt;
    if c.mapped && batch != [] && m >= 0 {
      PassEnds(s, m, c.cpuid, batch[1..], batch[0].counts, max, pause);
    }
  }

  lemma VisitCpuSlots(s: State, n: nat, j: nat, feed: Feeds, max: nat, pause: bool)
    requires Fit(s, max) && n < |s.nodes| && j < |s.nodes[n].cpus| && Fed(feed)
    ensures var r := VisitCpu(s, n, j, feed, max, pause);
            && OthersStay(s, r, n) && r.nodes[n].valid == s.nodes[n].valid && r.nodes[n].hotremove == s.nodes[n].hotremove
            && |r.nodes[n].cpus| == |s.nodes[n].cpus|
            && r.nodes[n].cpus == s.nodes[n].cpus[j := r.nodes[n].cpus[j]]
            && SettledSlot(s.nodes[n].cpus[j], r.nodes[n].cpus[j], feed(n, j))
  {
    hide SampleCpu, Formed;
    var c := s.nodes[n].cpus[j];
    assert NodeFits(s.nodes[n], max) && SlotFits(c, max);
    if !c.hotremove && c.cpuid != INVALID_CPUID {
      SampleCpuSlots(SetCpu(s, n, j, SetUp(c, feed(n, j))), n, j, feed(n, j).batch, max, pause);
    }
  }

  lemma {:induction false} VisitCpusSlots(s: State, n: nat, k: nat, feed: Feeds, max: nat, pause: bool)
    requires Fit(s, max) && n < |s.nodes| && k <= |s.nodes[n].cpus| && Fed(feed)
    ensures var r := VisitCpus(s, n, k, feed, max, pause);
            OthersStay(s, r, n) && PartlySettled(s.nodes[n], r.nodes[n], n, feed, k)
  {
    hide VisitCpu, Fit, SettledSlot;
    if k > 0 {
      VisitCpusSlots(s, n, k - 1, feed, max, pause);
      VisitCpuSlots(VisitCpus(s, n, k - 1, feed, max, pause), n, k - 1, feed, max, pause);
    }
  }

  lemma VisitNodeSlots(s: State, n: nat, feed: Feeds, max: nat, pause: bool)
    requires Fit(s, max) && n < |s.nodes| && Fed(feed)
    ensures var r := VisitNode(s, n, feed, max, pause);
            OthersStay(s, r, n) && SettledNode(s.nodes[n], r.nodes[n], n, feed)
  {
    hide VisitCpus, Fit, SettledSlot;
    if s.nodes[n].valid {
      VisitCpusSlots(s, n, |s.nodes[n].cpus|, feed, max, pause);
    }
  }

  /** The first k nodes are settled, the others as before but for their counters. */
  predicate SettledNodes(s: State, r: State, k: nat, feed: Feeds) {
    && |r.nodes| == |s.nodes|
    && (forall n: nat :: n < |s.nodes| && n < k ==> SettledNode(s.nodes[n], r.nodes[n], n, feed))
    && (forall n :: k <= n < |s.nodes| ==> r.nodes[n] == s.nodes[n].(countval := r.nodes[n].countval))
  }

  /** After a traversal every slot of a valid node that awaited removal is empty, every other
      keeps its CPU and is set up if it was hot-added; no removal or addition is left over,
      and exactly the hot-removed nodes are gone. */
  lemma {:induction false} VisitNodesSlots(s: State, k: nat, feed: Feeds, max: nat, pause: bool)
    requires Fit(s, max) && k <= |s.nodes| && Fed(feed)
    ensures SettledNodes(s, VisitNodes(s, k, feed, max, pause), k, feed)
  {
    hide VisitNode, Fit, SettledSlot, SettledSlots;
    if k > 0 {
      VisitNodesSlots(s, k - 1, feed, max, pause);
      VisitNodeSlots(VisitNodes(s, k - 1, feed, max, pause), k - 1, feed, max, pause);
      var r, t := VisitNodes(s, k - 1, feed, max, pause), VisitNodes(s, k, feed, max, pause);
      forall n: nat | n < k
        ensures SettledNode(s.nodes[n], t.nodes[n], n, feed)
      {
        if n < k - 1 {
          SettledAlike(s.nodes[n], s.nodes[n], r.nodes[n], t.nodes[n], n, feed);
        } else {
          SettledAlike(s.nodes[n], r.nodes[n], t.nodes[n], t.nodes[n], n, feed);
        }
      }
    }
  }

  /** Counters are no part of it. */
  lemma SettledAlike(m: Node, m': Node, r': Node, r: Node, n: nat, feed: Feeds)
    requires m' == m.(countval := m'.countval) && r == r'.(countval := r.countval) && SettledNode(m', r', n, feed)
    ensures SettledNode(m, r, n, feed)
  {
    hide SettledSlot;
  }
}
