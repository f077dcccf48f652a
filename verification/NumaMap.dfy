/**
 NUMA map compression: the pages of a mapping, asked for their nodes in chunks, are
 run-length encoded into address ranges.
 */
module NumaMap {
  const NUMA_MOVE_NPAGES := 1024
  import opened Basics


  datatype NumaEntry = NumaEntry(startAddr: nat, endAddr: nat, nid: int)

  /** k pages of `ps` bytes. */
  function PageOff(k: nat, ps: nat): nat {
    if k == 0 then 0 else PageOff(k - 1, ps) + ps
  }

  /** The address computed for page k: the product is 32-bit unsigned. */
  function PageAddr(start: nat, k: nat, ps: nat): nat {
    start + PageOff(k, ps) % TWO32
  }

  lemma {:induction false} PageOffIsProduct(k: nat, ps: nat)
    ensures PageOff(k, ps) == k * ps
  {
    if k > 0 {
      PageOffIsProduct(k - 1, ps);
      assert (k - 1) * ps + ps == k * ps;
    }
  }

  lemma {:induction false} PageOffGrows(j: nat, k: nat, ps: nat)
    requires j <= k
    ensures PageOff(j, ps) <= PageOff(k, ps)
    ensures j < k ==> PageOff(j, ps) + ps <= PageOff(k, ps)
    decreases k
  {
    if j < k {
      PageOffGrows(j, k - 1, ps);
    }
  }

  /** One page appended: the last entry grows if it ends there on the same node. */
  function Extend(arr: seq<NumaEntry>, addr: nat, nid: int, ps: nat): (r: seq<NumaEntry>)
    ensures r != []
  {
    if arr != [] && arr[|arr| - 1].nid == nid && arr[|arr| - 1].endAddr == addr then
      arr[|arr| - 1 := arr[|arr| - 1].(endAddr := addr + ps)]
    else arr + [NumaEntry(addr, addr + ps, nid)]
  }

  /** The encoding of pages 0, 1, ... on the given nodes, in one pass. */
  function Encode(start: nat, ps: nat, nodes: seq<int>): (r: seq<NumaEntry>)
    ensures nodes != [] ==> r != []
  {
    if nodes == [] then []
    else
      var k := |nodes| - 1;
      Extend(Encode(start, ps, nodes[..k]), PageAddr(start, k, ps), nodes[k], ps)
  }

  function Pages(start: nat, end: nat, ps: nat): nat
    requires ps > 0 && start <= end
  {
    (end - start) / ps % TWO32
  }

  class NumaTable {
    var arr: seq<NumaEntry>

    constructor ()
      ensures arr == []
    {
      arr := [];
    }

    /** `numa_entry_add`. */
    method EntryAdd(addr: nat, nid: int, ps: nat)
      modifies this
      ensures arr == old(arr) + [NumaEntry(addr, addr + ps, nid)]
    {
      arr := arr + [NumaEntry(addr, addr + ps, nid)];
    }

    /** `numa_map_update`: one chunk of pages, continuing the last entry if there is one. */
    method Update(addrs: seq<nat>, nodes: seq<int>, ps: nat, last: bool,
                  ghost start: nat, ghost before: seq<int>)
      requires |addrs| == |nodes| > 0 && (last <==> before != [])
      requires arr == Encode(start, ps, before)
      requires forall i :: 0 <= i < |addrs| ==> addrs[i] == PageAddr(start, |before| + i, ps)
      modifies this
      ensures arr == Encode(start, ps, before + nodes)
    {
      hide PageAddr;
      var i := 0;
      if !last {
        EntryAdd(addrs[0], nodes[0], ps);
        i := 1;
        EncodeMore(start, ps, before, nodes, 0);
      }
      assert before + nodes[..0] == before;
      for j := i to |addrs|
        invariant arr == Encode(start, ps, before + nodes[..j])
      {
        var n := |arr| - 1;
        EncodeMore(start, ps, before, nodes, j);
        if n >= 0 && arr[n].nid == nodes[j] && arr[n].endAddr == addrs[j] {
          arr := arr[n := arr[n].(endAddr := arr[n].endAddr + ps)];
        } else {
          EntryAdd(addrs[j], nodes[j], ps);
        }
      }
      assert nodes[..|nodes|] == nodes;
    }

    /** The addresses of one chunk. */
    method ChunkAddrs(start: nat, ps: nat, moved: nat, tomove: nat) returns (addrs: seq<nat>)
      ensures |addrs| == tomove && forall i :: 0 <= i < tomove ==> addrs[i] == PageAddr(start, moved + i, ps)
    {
      addrs := [];
      for i := 0 to tomove
        invariant |addrs| == i && forall k :: 0 <= k < i ==> addrs[k] == PageAddr(start, moved + k, ps)
      {
        addrs := addrs + [PageAddr(start, i + moved, ps)];
      }
    }

    /** `map_map2numa`. `nodeOf` is what the kernel reports page by page and `calls` how
        many of its answers succeed; the chunking leaves no trace in the result. */
    method Map2Numa(start: nat, end: nat, ps: nat, nodeOf: seq<int>, calls: nat) returns (ok: bool)
      requires ps > 0 && start <= end && |nodeOf| == Pages(start, end, ps)
      modifies this
      ensures ok <==> |nodeOf| <= NUMA_MOVE_NPAGES * calls
      ensures arr == Encode(start, ps, if ok then nodeOf else nodeOf[..NUMA_MOVE_NPAGES * calls])
    {
      hide Encode, PageAddr;
      arr := [];
      EncodeNone(start, ps);
      var total, moved: nat, call := |nodeOf|, 0, 0;
      while moved < total
        invariant moved <= total && call <= calls && arr == Encode(start, ps, nodeOf[..moved])
        invariant moved < total ==> moved == NUMA_MOVE_NPAGES * call
        invariant moved <= NUMA_MOVE_NPAGES * call
      {
        var tomove := if NUMA_MOVE_NPAGES < total - moved then NUMA_MOVE_NPAGES else total - moved;
        var addrs := ChunkAddrs(start, ps, moved, tomove);
        if call == calls {
          return false;
        }
        call := call + 1;
        var chunk := nodeOf[moved..moved + tomove];
        Update(addrs, chunk, ps, moved > 0, start, nodeOf[..moved]);
        assert nodeOf[..moved] + chunk == nodeOf[..moved + tomove];
        moved := moved + tomove;
      }
      assert nodeOf[..total] == nodeOf;
      ok := true;
    }
  }

  lemma EncodeNone(start: nat, ps: nat)
    ensures Encode(start, ps, []) == []
  {
  }

  lemma EncodeMore(start: nat, ps: nat, before: seq<int>, nodes: seq<int>, j: nat)
    requires j < |nodes|
    ensures Encode(start, ps, before + nodes[..j + 1])
         == Extend(Encode(start, ps, before + nodes[..j]), PageAddr(start, |before| + j, ps), nodes[j], ps)
  {
    var all := before + nodes[..j + 1];
    assert all[..|all| - 1] == before + nodes[..j];
  }

  // ---------------------------------------------------------------------------
  // What the entries mean

  /** The entries cover [from, to) in order, each starting where the one before ends. */
  predicate Tiles(arr: seq<NumaEntry>, from: nat, to: nat) {
    if arr == [] then from == to
    else
      var last := arr[|arr| - 1];
      last.startAddr < last.endAddr == to && Tiles(arr[..|arr| - 1], from, last.startAddr)
  }

  predicate Maximal(arr: seq<NumaEntry>) {
    forall i :: 0 <= i < |arr| - 1 ==> arr[i].nid != arr[i + 1].nid
  }

  /** Some entry does not start where the one before it ends. */
  predicate HasGap(arr: seq<NumaEntry>) {
    exists i :: 0 <= i < |arr| - 1 && arr[i].endAddr != arr[i + 1].startAddr
  }

  lemma {:induction false} TilesNoGap(arr: seq<NumaEntry>, from: nat, to: nat)
    requires Tiles(arr, from, to)
    ensures !HasGap(arr)
  {
    if |arr| > 1 {
      var n := |arr| - 1;
      TilesNoGap(arr[..n], from, arr[n].startAddr);
      assert arr[..n][n - 1].endAddr == arr[n].startAddr;
      forall i | 0 <= i < n
        ensures arr[i].endAddr == arr[i + 1].startAddr
      {
        assert i < n - 1 ==> arr[..n][i].endAddr == arr[..n][i + 1].startAddr;
      }
    }
  }

  lemma TilesNothing(start: nat)
    ensures Tiles([], start, start) && Maximal([])
  {
  }

  lemma ExtendTiles(arr: seq<NumaEntry>, from: nat, to: nat, nid: int, ps: nat)
    requires Tiles(arr, from, to) && Maximal(arr) && ps > 0
    ensures Tiles(Extend(arr, to, nid, ps), from, to + ps) && Maximal(Extend(arr, to, nid, ps))
  {
    var r := Extend(arr, to, nid, ps);
    if arr != [] && arr[|arr| - 1].nid == nid {
      assert r[..|r| - 1] == arr[..|arr| - 1];
    } else {
      assert r[..|r| - 1] == arr;
    }
  }

  lemma {:induction false} EncodeTiles(start: nat, ps: nat, nodes: seq<int>)
    requires 0 < ps && PageOff(|nodes|, ps) <= TWO32
    ensures Tiles(Encode(start, ps, nodes), start, start + PageOff(|nodes|, ps))
    ensures Maximal(Encode(start, ps, nodes))
  {
    hide Maximal, Extend;
    if nodes == [] {
      TilesNothing(start);
    } else {
      var k := |nodes| - 1;
      EncodeTiles(start, ps, nodes[..k]);
      ExtendTiles(Encode(start, ps, nodes[..k]), start, start + PageOff(k, ps), nodes[k], ps);
    }
  }

  /** 2^32 is a whole number of pages, so some page starts exactly there. */
  lemma OffHitsWrap(k: nat, ps: nat)
    requires 0 < ps && TWO32 % ps == 0 && PageOff(k, ps) <= TWO32 < PageOff(k + 1, ps)
    ensures PageOff(k, ps) == TWO32
  {
    var m := TWO32 / ps;
    PageOffIsProduct(m, ps);
    assert PageOff(m, ps) == TWO32;
    if k < m {
      PageOffGrows(k + 1, m, ps);
    } else if m < k {
      PageOffGrows(m, k, ps);
    }
  }

  /** Past 4 GiB the computed address falls back, which leaves a gap for good. */
  lemma {:induction false} EncodeGaps(start: nat, ps: nat, nodes: seq<int>)
    requires 0 < ps && PageOff(|nodes|, ps) > TWO32 && TWO32 % ps == 0
    ensures HasGap(Encode(start, ps, nodes))
  {
    hide Tiles, Maximal;
    var k := |nodes| - 1;
    var arr, r := Encode(start, ps, nodes[..k]), Encode(start, ps, nodes);
    if PageOff(k, ps) > TWO32 {
      EncodeGaps(start, ps, nodes[..k]);
      var i :| 0 <= i < |arr| - 1 && arr[i].endAddr != arr[i + 1].startAddr;
      assert r[i].endAddr != r[i + 1].startAddr;
    } else {
      OffHitsWrap(k, ps);
      assert PageAddr(start, k, ps) == start;
      EncodeTiles(start, ps, nodes[..k]);
      TilesEnd(arr, start, start + TWO32);
      assert r[|arr| - 1].endAddr != r[|arr|].startAddr;
    }
  }

  lemma TilesEnd(arr: seq<NumaEntry>, from: nat, to: nat)
    requires Tiles(arr, from, to) && from != to
    ensures arr != [] && arr[|arr| - 1].endAddr == to
  {
  }

  lemma {:induction false} TilesOrder(arr: seq<NumaEntry>, from: nat, to: nat)
    requires Tiles(arr, from, to)
    ensures from <= to
    ensures forall i :: 0 <= i < |arr| ==> from <= arr[i].startAddr < arr[i].endAddr <= to
    ensures forall i, j :: 0 <= i < j < |arr| ==> arr[i].endAddr <= arr[j].startAddr
  {
    if arr != [] {
      var n := |arr| - 1;
      TilesOrder(arr[..n], from, arr[n].startAddr);
      assert forall i :: 0 <= i < n ==> arr[i] == arr[..n][i];
    }
  }

  /** The page count covers the mapping exactly, unless truncation to 32 bits cut it. */
  lemma PagesFacts(start: nat, end: nat, ps: nat)
    requires start < end && 1 < ps && (end - start) % ps == 0
    ensures var n := Pages(start, end, ps);
            && PageOff(n, ps) <= end - start
            && (end - start <= TWO32 ==> PageOff(n, ps) == end - start)
  {
    var size := end - start;
    var pages := size / ps;
    PageOffIsProduct(pages, ps);
    assert PageOff(pages, ps) == size;
    AtMostHalf(pages, ps);
    PageOffGrows(Pages(start, end, ps), pages, ps);
  }

  lemma {:induction false} AtMostHalf(pages: nat, ps: nat)
    requires ps > 1
    ensures 2 * pages <= PageOff(pages, ps)
  {
    if pages > 0 {
      AtMostHalf(pages - 1, ps);
    }
  }

  /** The entries of a page-aligned mapping tile it if and only if it has at most 4 GiB. */
  lemma MappingTiledIff(start: nat, end: nat, ps: nat, nodes: seq<int>)
    requires start < end && 1 < ps && TWO32 % ps == 0 && (end - start) % ps == 0
    requires |nodes| == Pages(start, end, ps)
    ensures Tiles(Encode(start, ps, nodes), start, end) <==> end - start <= TWO32
  {
    hide Tiles, Encode, Pages, PageOff;
    var arr, n := Encode(start, ps, nodes), |nodes|;
    PagesFacts(start, end, ps);
    if PageOff(n, ps) > TWO32 {
      EncodeGaps(start, ps, nodes);
      if Tiles(arr, start, end) {
        TilesNoGap(arr, start, end);
      }
    } else {
      EncodeTiles(start, ps, nodes);
      if Tiles(arr, start, end) {
        SameEnd(arr, start, end, start + PageOff(n, ps));
      }
    }
  }

  lemma SameEnd(arr: seq<NumaEntry>, from: nat, to: nat, to': nat)
    requires Tiles(arr, from, to) && Tiles(arr, from, to')
    ensures to == to'
  {
  }

  /** The node the entries give an address: that of the last entry starting at or below. */
  function NidAt(arr: seq<NumaEntry>, addr: nat): int {
    if arr == [] then 0
    else
      var last := arr[|arr| - 1];
      if last.startAddr <= addr then last.nid else NidAt(arr[..|arr| - 1], addr)
  }

  lemma {:induction false} NidAtEntry(arr: seq<NumaEntry>, from: nat, to: nat, i: nat, addr: nat)
    requires Tiles(arr, from, to) && i < |arr| && arr[i].startAddr <= addr < arr[i].endAddr
    ensures NidAt(arr, addr) == arr[i].nid
  {
    var n := |arr| - 1;
    if i < n {
      TilesOrder(arr, from, to);
      NidAtEntry(arr[..n], from, arr[n].startAddr, i, addr);
    }
  }

  lemma ExtendNid(arr: seq<NumaEntry>, from: nat, to: nat, nid: int, ps: nat, addr: nat)
    requires Tiles(arr, from, to) && ps > 0 && from <= addr
    ensures NidAt(Extend(arr, to, nid, ps), addr) == if addr < to then NidAt(arr, addr) else nid
  {
    TilesOrder(arr, from, to);
    var r := Extend(arr, to, nid, ps);
    assert r[..|r| - 1] == if |r| == |arr| then arr[..|arr| - 1] else arr;
  }

  /** Every address of page k has page k's node. */
  lemma {:induction false} EncodeNodes(start: nat, ps: nat, nodes: seq<int>, k: nat, off: nat)
    requires 0 < ps && PageOff(|nodes|, ps) <= TWO32 && k < |nodes| && off < ps
    ensures NidAt(Encode(start, ps, nodes), start + PageOff(k, ps) + off) == nodes[k]
  {
    hide Tiles, Extend, NidAt;
    var n := |nodes| - 1;
    var addr := start + PageOff(k, ps) + off;
    EncodeTiles(start, ps, nodes[..n]);
    ExtendNid(Encode(start, ps, nodes[..n]), start, start + PageOff(n, ps), nodes[n], ps, addr);
    if k < n {
      PageOffGrows(k, n, ps);
      EncodeNodes(start, ps, nodes[..n], k, off);
    }
  }

  /** The encoding is canonical: entries that tile the same range, agree on every
      address's node and differ from their neighbours are the same entries. */
  lemma {:induction false} MaximalUnique(a: seq<NumaEntry>, b: seq<NumaEntry>, from: nat, to: nat)
    requires Tiles(a, from, to) && Tiles(b, from, to) && Maximal(a) && Maximal(b)
    requires forall addr :: from <= addr < to ==> NidAt(a, addr) == NidAt(b, addr)
    ensures a == b
    decreases |a|
  {
    hide *;
    BothEmpty(a, b, from, to);
    if a != [] {
      var m, n := |a| - 1, |b| - 1;
      LastStart(a, b, from, to);
      LastStart(b, a, from, to);
      NidLast(a, from, to);
      NidLast(b, from, to);
      assert NidAt(a, to - 1) == NidAt(b, to - 1);
      assert forall addr :: from <= addr < a[m].startAddr ==> NidAt(a, addr) == NidAt(b, addr);
      MaximalUnique(a[..m], b[..n], from, a[m].startAddr);
      assert a == a[..m] + [a[m]] && b == b[..n] + [b[n]];
    }
  }

  lemma BothEmpty(a: seq<NumaEntry>, b: seq<NumaEntry>, from: nat, to: nat)
    requires Tiles(a, from, to) && Tiles(b, from, to)
    ensures a == [] <==> b == []
  {
    TilesOrder(a, from, to);
    TilesOrder(b, from, to);
  }

  lemma NidLast(a: seq<NumaEntry>, from: nat, to: nat)
    requires Tiles(a, from, to) && a != [] && Maximal(a)
    ensures var m := |a| - 1;
            && from <= a[m].startAddr < a[m].endAddr == to && NidAt(a, to - 1) == a[m].nid
            && Tiles(a[..m], from, a[m].startAddr) && Maximal(a[..m])
            && forall addr :: from <= addr < a[m].startAddr ==> NidAt(a[..m], addr) == NidAt(a, addr)
  {
    TilesOrder(a, from, to);
  }

  lemma LastStart(a: seq<NumaEntry>, b: seq<NumaEntry>, from: nat, to: nat)
    requires Tiles(a, from, to) && Tiles(b, from, to) && Maximal(b) && a != [] && b != []
    requires forall addr :: from <= addr < to ==> NidAt(a, addr) == NidAt(b, addr)
    ensures a[|a| - 1].startAddr >= b[|b| - 1].startAddr
  {
    var m, n := |a| - 1, |b| - 1;
    if a[m].startAddr < b[n].startAddr {
      TilesOrder(a, from, to);
      TilesOrder(b, from, to);
      var addr := b[n].startAddr - 1;
      assert NidAt(a, addr) == a[m].nid == NidAt(a, to - 1) == NidAt(b, to - 1) == b[n].nid;
      TilesEnd(b[..n], from, b[n].startAddr);
      NidAtEntry(b, from, to, n - 1, addr);
    }
  }
}
