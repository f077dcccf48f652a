/**
 Attribution of memory-latency samples: each sample's address is looked up by binary
 search in a table of address areas, whose lines are updated in place.
 */
module Latency {
  import opened Basics
  import opened Libc
  import NumaMap

  datatype Area = Area(start: nat, end: nat, nid: int)
  datatype LatLine = LatLine(area: Area, naccess: int, latency: Int32, nsamples: Int32)
  datatype LlRec = LlRec(addr: nat, latency: nat)

  predicate Hit(a: Area, r: LlRec) {
    a.start <= r.addr < a.end
  }

  /** The comparison of `bufaddr_cmp`. */
  function BufaddrCmp(addr: nat, a: Area): int {
    if addr < a.start then -1 else if addr >= a.end then 1 else 0
  }

  /** Sorted, disjoint, none empty. */
  predicate Disjoint(areas: seq<Area>) {
    && (forall i :: 0 <= i < |areas| ==> areas[i].start < areas[i].end)
    && (forall i, j :: 0 <= i < j < |areas| ==> areas[i].end <= areas[j].start)
  }

  /** What a linear scan counts for one area. */
  function Count(recs: seq<LlRec>, a: Area): nat {
    if recs == [] then 0
    else Count(recs[..|recs| - 1], a) + if Hit(a, recs[|recs| - 1]) then 1 else 0
  }

  function LatSum(recs: seq<LlRec>, a: Area): nat {
    if recs == [] then 0
    else LatSum(recs[..|recs| - 1], a) + if Hit(a, recs[|recs| - 1]) then recs[|recs| - 1].latency else 0
  }

  function Areas(lines: seq<LatLine>): (r: seq<Area>)
    ensures |r| == |lines|
  {
    seq(|lines|, i requires 0 <= i < |lines| => lines[i].area)
  }

  function CountAll(recs: seq<LlRec>, areas: seq<Area>): nat {
    if areas == [] then 0 else Count(recs, areas[0]) + CountAll(recs, areas[1..])
  }

  function LatAll(recs: seq<LlRec>, areas: seq<Area>): nat {
    if areas == [] then 0 else LatSum(recs, areas[0]) + LatAll(recs, areas[1..])
  }

  /** Among disjoint areas at most one is hit, so one more sample changes one sum. */
  lemma {:induction false} OneHit(recs: seq<LlRec>, r: LlRec, areas: seq<Area>, k: int)
    requires Disjoint(areas)
    requires if k == -1 then forall i :: 0 <= i < |areas| ==> !Hit(areas[i], r) else 0 <= k < |areas| && Hit(areas[k], r)
    ensures CountAll(recs + [r], areas) == CountAll(recs, areas) + (if k == -1 then 0 else 1)
    ensures LatAll(recs + [r], areas) == LatAll(recs, areas) + (if k == -1 then 0 else r.latency)
  {
    assert (recs + [r])[..|recs|] == recs;
    if areas != [] {
      if k > 0 {
        assert areas[0].end <= areas[k].start;
      }
      if k == 0 {
        forall i | 0 <= i < |areas[1..]|
          ensures !Hit(areas[1..][i], r)
        {
          assert areas[0].end <= areas[i + 1].start;
        }
      }
      OneHit(recs, r, areas[1..], if k > 0 then k - 1 else -1);
    }
  }

  lemma {:induction false} CountNone(areas: seq<Area>)
    ensures CountAll([], areas) == 0 && LatAll([], areas) == 0
  {
    if areas != [] {
      CountNone(areas[1..]);
    }
  }

  lemma S32Adds(a: int, b: int)
    ensures S32(S32(a) + b) == S32(a + b)
  {
    var q := (a + TWO31) / TWO32;
    assert a + TWO31 == TWO32 * q + (a + TWO31) % TWO32;
    assert S32(a) + b + TWO31 == (a + b + TWO31) - TWO32 * q;
  }

  /** The lines after attributing `recs`, each field by a linear scan. */
  predicate Attributed(lines: seq<LatLine>, was: seq<LatLine>, recs: seq<LlRec>) {
    && |lines| == |was|
    && forall k :: 0 <= k < |lines| ==>
         && lines[k].area == was[k].area && lines[k].nsamples == was[k].nsamples
         && lines[k].naccess == was[k].naccess + Count(recs, was[k].area)
         && lines[k].latency == S32(was[k].latency + LatSum(recs, was[k].area))
  }

  /** `os_lat_buf_hit`. */
  method LatBufHit(buf: array<LatLine>, rec: LlRec, totalLat: nat, totalSample: nat) returns (lat: nat, sample: nat, ghost k: int)
    requires Disjoint(Areas(buf[..]))
    modifies buf
    ensures if k == -1 then forall i :: 0 <= i < buf.Length ==> !Hit(buf[i].area, rec)
            else 0 <= k < buf.Length && Hit(buf[k].area, rec)
    ensures lat == totalLat + (if k == -1 then 0 else rec.latency)
    ensures sample == totalSample + (if k == -1 then 0 else 1)
    ensures forall i :: 0 <= i < buf.Length ==>
              buf[i] == if i != k then old(buf[i]) else
                old(buf[i]).(naccess := old(buf[i]).naccess + 1, latency := S32(old(buf[i]).latency + rec.latency))
  {
    hide S32;
    var areas := Areas(buf[..]);
    var line := BSearch(areas, a => BufaddrCmp(rec.addr, a));
    k := line;
    lat, sample := totalLat, totalSample;
    if line != -1 {
      buf[line] := buf[line].(naccess := buf[line].naccess + 1, latency := S32(buf[line].latency + rec.latency));
      lat := totalLat + rec.latency;
      sample := totalSample + 1;
    } else {
      forall i | 0 <= i < buf.Length
        ensures !Hit(buf[i].area, rec)
      {
        assert BufaddrCmp(rec.addr, areas[i]) != 0;
      }
    }
  }

  lemma AttributedStep(mid: seq<LatLine>, now: seq<LatLine>, was: seq<LatLine>, recs: seq<LlRec>, r: LlRec, k: int)
    requires Attributed(mid, was, recs) && |now| == |mid| && Disjoint(Areas(was))
    requires if k == -1 then forall i :: 0 <= i < |mid| ==> !Hit(mid[i].area, r)
             else 0 <= k < |mid| && Hit(mid[k].area, r)
    requires forall i :: 0 <= i < |mid| ==>
               now[i] == if i != k then mid[i] else
                 mid[i].(naccess := mid[i].naccess + 1, latency := S32(mid[i].latency + r.latency))
    ensures Attributed(now, was, recs + [r])
  {
    hide S32;
    assert (recs + [r])[..|recs|] == recs;
    forall i | 0 <= i < |now|
      ensures now[i].area == was[i].area && now[i].nsamples == was[i].nsamples
      ensures now[i].naccess == was[i].naccess + Count(recs + [r], was[i].area)
      ensures now[i].latency == S32(was[i].latency + LatSum(recs + [r], was[i].area))
    {
      if i != k && k != -1 {
        assert Areas(was)[i] == was[i].area && Areas(was)[k] == was[k].area;
        assert !Hit(was[i].area, r);
      }
      S32Adds(was[i].latency + LatSum(recs, was[i].area), r.latency);
    }
  }

  /** `win_lat_buf_fill`: every area gets exactly what a linear scan of the samples gives
      it, and the totals are the sums over the areas. */
  method LatBufFill(buf: array<LatLine>, recs: seq<LlRec>) returns (lat: Int32)
    requires Disjoint(Areas(buf[..]))
    modifies buf
    ensures var areas := old(Areas(buf[..])); var total := CountAll(recs, areas);
            && (forall k :: 0 <= k < buf.Length ==>
                  && buf[k].area == old(buf[k].area) && buf[k].nsamples == S32(total)
                  && buf[k].naccess == old(buf[k].naccess) + Count(recs, areas[k])
                  && buf[k].latency == S32(old(buf[k].latency) + LatSum(recs, areas[k])))
            && lat == if total > 0 then S32(LatAll(recs, areas) / total) else 0
  {
    hide S32, CountAll, LatAll, Count, LatSum;
    ghost var was, areas := buf[..], Areas(buf[..]);
    var totalSample, totalLat := 0, 0;
    CountNone(areas);
    AttributedNone(was);
    for i := 0 to |recs|
      invariant |buf[..]| == |was| && Attributed(buf[..], was, recs[..i])
      invariant totalSample == CountAll(recs[..i], areas) && totalLat == LatAll(recs[..i], areas)
    {
      ghost var mid := buf[..];
      assert Areas(mid) == areas;
      ghost var k;
      totalLat, totalSample, k := LatBufHit(buf, recs[i], totalLat, totalSample);
      assert recs[..i + 1] == recs[..i] + [recs[i]];
      AttributedStep(mid, buf[..], was, recs[..i], recs[i], k);
      OneHit(recs[..i], recs[i], areas, k);
    }
    assert recs[..|recs|] == recs;
    ghost var mid := buf[..];
    for i := 0 to buf.Length
      invariant forall k :: 0 <= k < buf.Length ==>
                  buf[k] == if k < i then mid[k].(nsamples := S32(totalSample)) else mid[k]
    {
      buf[i] := buf[i].(nsamples := S32(totalSample));
    }
    lat := if totalSample > 0 then S32(totalLat / totalSample) else 0;
  }

  lemma AttributedNone(was: seq<LatLine>)
    ensures Attributed(was, was, [])
  {
  }

  // ---------------------------------------------------------------------------
  // Attribution to NUMA nodes

  /** `latnode_buf_create`: one area per entry of a mapping's NUMA map. */
  function NodeAreas(entries: seq<NumaMap.NumaEntry>): (r: seq<Area>)
    ensures |r| == |entries|
  {
    seq(|entries|, i requires 0 <= i < |entries| => Area(entries[i].startAddr, entries[i].endAddr, entries[i].nid))
  }

  lemma NodeAreasDisjoint(entries: seq<NumaMap.NumaEntry>, from: nat, to: nat)
    requires NumaMap.Tiles(entries, from, to)
    ensures Disjoint(NodeAreas(entries))
  {
    NumaMap.TilesOrder(entries, from, to);
  }

  /** Every sample inside a mapping of at most 4 GiB is charged to a line that carries
      its own page's node, and to no other. */
  lemma ChargedToOwnNode(start: nat, ps: nat, nodes: seq<int>, r: LlRec, k: nat, off: nat) returns (i: nat)
    requires 0 < ps && NumaMap.PageOff(|nodes|, ps) <= TWO32 && k < |nodes| && off < ps
    requires r.addr == start + NumaMap.PageOff(k, ps) + off
    ensures var areas := NodeAreas(NumaMap.Encode(start, ps, nodes));
            && Disjoint(areas) && i < |areas| && Hit(areas[i], r) && areas[i].nid == nodes[k]
            && forall j :: 0 <= j < |areas| && Hit(areas[j], r) ==> j == i
  {
    hide NumaMap.Encode, NumaMap.PageOff, NumaMap.Tiles, NumaMap.NidAt, Disjoint;
    var entries, to := NumaMap.Encode(start, ps, nodes), start + NumaMap.PageOff(|nodes|, ps);
    NumaMap.EncodeTiles(start, ps, nodes);
    NodeAreasDisjoint(entries, start, to);
    NumaMap.PageOffGrows(k, |nodes|, ps);
    i := TileOf(entries, start, to, r.addr);
    NumaMap.NidAtEntry(entries, start, to, i, r.addr);
    NumaMap.EncodeNodes(start, ps, nodes, k, off);
    OnlyOneHit(NodeAreas(entries), r, i);
  }

  lemma OnlyOneHit(areas: seq<Area>, r: LlRec, i: nat)
    requires Disjoint(areas) && i < |areas| && Hit(areas[i], r)
    ensures forall j :: 0 <= j < |areas| && Hit(areas[j], r) ==> j == i
  {
    forall j | 0 <= j < |areas| && Hit(areas[j], r)
      ensures j == i
    {
    }
  }

  /** No sample inside the mapping is dropped. */
  lemma {:induction false} NoneDropped(entries: seq<NumaMap.NumaEntry>, from: nat, to: nat, recs: seq<LlRec>)
    requires NumaMap.Tiles(entries, from, to)
    requires forall i :: 0 <= i < |recs| ==> from <= recs[i].addr < to
    ensures CountAll(recs, NodeAreas(entries)) == |recs|
  {
    var areas := NodeAreas(entries);
    if recs == [] {
      CountNone(areas);
    } else {
      var n := |recs| - 1;
      NoneDropped(entries, from, to, recs[..n]);
      NodeAreasDisjoint(entries, from, to);
      var k := TileOf(entries, from, to, recs[n].addr);
      OneHit(recs[..n], recs[n], areas, k);
      assert recs == recs[..n] + [recs[n]];
    }
  }

  lemma {:induction false} TileOf(entries: seq<NumaMap.NumaEntry>, from: nat, to: nat, addr: nat) returns (i: nat)
    requires NumaMap.Tiles(entries, from, to) && from <= addr < to
    ensures i < |entries| && entries[i].startAddr <= addr < entries[i].endAddr
  {
    var n := |entries| - 1;
    if entries[n].startAddr <= addr {
      i := n;
    } else {
      i := TileOf(entries[..n], from, entries[n].startAddr, addr);
    }
  }
}
