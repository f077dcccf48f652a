/**
 The pointer-chase generator of mgen: a random Hamiltonian path over N slots,
 replicated per block of a buffer and stitched into one cycle. The values of
 `rand() % N` are a caller-supplied sequence, so everything holds for every generator.
 */
module PointerChase {
  import opened Basics

  const INVALID_RAND := -1
  const BUF_ELE_SIZE := 64

  // ---------------------------------------------------------------------------
  // The random path

  function Unset(a: seq<int>): (n: nat)
    ensures n <= |a|
  {
    if a == [] then 0 else (if a[0] == INVALID_RAND then 1 else 0) + Unset(a[1..])
  }

  lemma {:induction false} UnsetSplit(a: seq<int>, b: seq<int>)
    ensures Unset(a + b) == Unset(a) + Unset(b)
  {
    if a == [] {
      assert a + b == b;
    } else {
      assert (a + b)[1..] == a[1..] + b;
      UnsetSplit(a[1..], b);
    }
  }

  lemma UnsetUpdate(a: seq<int>, i: nat, v: int)
    requires i < |a| && a[i] == INVALID_RAND && v != INVALID_RAND
    ensures Unset(a[i := v]) == Unset(a) - 1
  {
    var l, r := a[..i], a[i + 1..];
    assert a == l + ([a[i]] + r) && a[i := v] == l + ([v] + r);
    UnsetSplit(l, [a[i]] + r);
    UnsetSplit(l, [v] + r);
  }

  /** Two different unset slots make the count at least 2. */
  lemma UnsetTwo(a: seq<int>, i: nat, j: nat)
    requires i < j < |a| && a[i] == a[j] == INVALID_RAND
    ensures Unset(a) >= 2
  {
    UnsetUpdate(a, i, 0);
    UnsetUpdate(a[i := 0], j, 0);
  }

  /** `p` is the walk built so far: its last slot is the only unset one on it. */
  predicate Chained(a: seq<int>, p: seq<int>) {
    && |p| > 0 && p[0] == 0 && Distinct(p)
    && (forall i :: 0 <= i < |p| ==> 0 <= p[i] < |a|)
    && (forall i :: 0 <= i < |p| - 1 ==> a[p[i]] == p[i + 1])
    && (forall k :: 0 <= k < |a| ==> (a[k] == INVALID_RAND <==> k !in p || k == p[|p| - 1]))
  }

  /** Following `a` from 0 visits every slot once and ends at the one holding |a|. */
  ghost predicate Hamiltonian(a: seq<int>, p: seq<int>) {
    && |p| == |a| > 0 && p[0] == 0 && Distinct(p)
    && (forall i :: 0 <= i < |p| ==> 0 <= p[i] < |a|)
    && (forall k :: 0 <= k < |a| ==> k in p)
    && (forall i :: 0 <= i < |p| - 1 ==> a[p[i]] == p[i + 1])
    && a[p[|p| - 1]] == |a|
  }

  /** The slots in order of first appearance in the draws. */
  function Visit(p: seq<int>, draws: seq<nat>): seq<int>
    decreases draws
  {
    if draws == [] then p
    else Visit(if draws[0] in p then p else p + [draws[0]], draws[1..])
  }

  /** The draws mention every slot but 0, and there is at least one draw. */
  predicate Covers(draws: seq<nat>, n: nat) {
    draws != [] && forall k :: 0 < k < n ==> k in draws
  }

  /** `p` is the path after the first `d` draws. */
  ghost predicate Progress(p: seq<int>, draws: seq<nat>, d: nat)
    requires d <= |draws|
  {
    && Visit([0], draws) == Visit(p, draws[d..])
    && (forall k :: k in p ==> k == 0 || k in draws[..d])
    && (forall k :: k in draws[..d] ==> k in p)
  }

  lemma ProgressStep(p: seq<int>, draws: seq<nat>, d: nat)
    requires d < |draws| && Progress(p, draws, d)
    ensures Progress(if draws[d] in p then p else p + [draws[d]], draws, d + 1)
  {
    assert draws[d..][1..] == draws[d + 1..];
    assert draws[..d + 1] == draws[..d] + [draws[d]];
  }

  lemma ChainStep(a: seq<int>, p: seq<int>, r: nat)
    requires Chained(a, p) && r < |a| && r !in p && Unset(a) == |a| + 1 - |p|
    ensures var i := p[|p| - 1];
            Chained(a[i := r], p + [r]) && Unset(a[i := r]) == |a| + 1 - |p + [r]|
  {
    var i := p[|p| - 1];
    UnsetUpdate(a, i, r);
    var q, b := p + [r], a[i := r];
    assert forall k :: k in q <==> k in p || k == r;
  }

  lemma ChainEnds(a: seq<int>, p: seq<int>)
    requires Chained(a, p) && Unset(a) == |a| + 1 - |p| == 1
    ensures Hamiltonian(a[p[|p| - 1] := |a|], p)
  {
    var i := p[|p| - 1];
    forall k | 0 <= k < |a|
      ensures k in p
    {
      if k < i && a[k] == INVALID_RAND {
        UnsetTwo(a, k, i);
      } else if i < k && a[k] == INVALID_RAND {
        UnsetTwo(a, i, k);
      }
    }
  }

  lemma {:induction false} UnsetOther(a: seq<int>, i: int) returns (k: nat)
    requires Unset(a) >= 2 || (Unset(a) >= 1 && !(0 <= i < |a|))
    ensures k < |a| && a[k] == INVALID_RAND && k != i
  {
    if a[0] == INVALID_RAND && i != 0 {
      k := 0;
    } else {
      k := UnsetOther(a[1..], i - 1);
      k := k + 1;
    }
  }

  /** With two slots still unset, one is missing from the path. */
  lemma NotCovered(a: seq<int>, p: seq<int>, draws: seq<nat>)
    requires Chained(a, p) && (Unset(a) >= 2 || draws == []) && Progress(p, draws, |draws|)
    ensures !Covers(draws, |a|)
  {
    if draws == [] {
      return;
    }
    var k := UnsetOther(a, p[|p| - 1]);
    assert draws[..|draws|] == draws;
    assert k !in p && k != 0;
  }

  method LastFreeElem(a: array<int>) returns (last: bool)
    ensures last <==> Unset(a[..]) == 1
  {
    var cnt := 0;
    for i := 0 to a.Length
      invariant cnt == Unset(a[..i]) <= 1
    {
      assert a[..i + 1] == a[..i] + [a[i]] && a[..] == a[..i + 1] + a[i + 1..];
      UnsetSplit(a[..i], [a[i]]);
      UnsetSplit(a[..i + 1], a[i + 1..]);
      if a[i] == INVALID_RAND {
        cnt := cnt + 1;
        if cnt > 1 {
          return false;
        }
      }
    }
    assert a[..] == a[..a.Length];
    return cnt == 1;
  }

  lemma {:induction false} AllUnset(a: seq<int>)
    requires forall i :: 0 <= i < |a| ==> a[i] == INVALID_RAND
    ensures Unset(a) == |a|
  {
    if a != [] {
      AllUnset(a[1..]);
    }
  }

  lemma {:induction false} VisitStops(p: seq<int>, draws: seq<nat>)
    requires forall k :: k in draws ==> k in p
    ensures Visit(p, draws) == p
    decreases draws
  {
    if draws != [] {
      VisitStops(p, draws[1..]);
    }
  }

  /** The inner loop of `rand_array_init`: the next draw of an unset slot, if any. */
  method NextFree(a: array<int>, draws: seq<nat>, from: nat, ghost p: seq<int>) returns (d: nat)
    requires forall i :: 0 <= i < |draws| ==> 0 <= draws[i] < a.Length
    requires from <= |draws| && Chained(a[..], p) && Progress(p, draws, from)
    ensures from <= d <= |draws| && Progress(p, draws, d)
    ensures d < |draws| ==> a[draws[d]] == INVALID_RAND
    ensures forall i :: from <= i < d ==> a[draws[i]] != INVALID_RAND
  {
    hide Progress;
    d := from;
    while d < |draws|
      invariant from <= d <= |draws| && Progress(p, draws, d)
      invariant forall i :: from <= i < d ==> a[draws[i]] != INVALID_RAND
    {
      if a[draws[d]] == INVALID_RAND {
        break;
      }
      assert a[..][draws[d]] != INVALID_RAND;
      ProgressStep(p, draws, d);
      d := d + 1;
    }
  }

  /** `rand_array_init`. It completes exactly when the draws cover every slot but 0,
      and then the path is the slots in order of first appearance. */
  method RandArrayInit(a: array<int>, draws: seq<nat>) returns (done: bool, ghost p: seq<int>)
    requires a.Length > 0 && forall i :: 0 <= i < |draws| ==> 0 <= draws[i] < a.Length
    modifies a
    ensures done ==> Hamiltonian(a[..], p) && p == Visit([0], draws)
    ensures done <==> Covers(draws, a.Length)
  {
    hide Unset, Hamiltonian, Visit, Progress, Covers;
    var n := a.Length;
    for i := 0 to n
      invariant forall k :: 0 <= k < i ==> a[k] == INVALID_RAND
    {
      a[i] := INVALID_RAND;
    }
    AllUnset(a[..]);
    var index, d := 0, 0;
    p := [0];
    ProgressStart(draws);
    while true
      invariant 0 <= d <= |draws| && Progress(p, draws, d)
      invariant Chained(a[..], p) && index == p[|p| - 1]
      invariant Unset(a[..]) == n + 1 - |p| && (d > 0 ==> Unset(a[..]) >= 2)
      invariant d == 0 ==> p == [0] && a[0] == INVALID_RAND
      decreases |draws| - d
    {
      ghost var from := d;
      d := NextFree(a, draws, d, p);
      assert d > from ==> a[draws[from]] != INVALID_RAND;
      if d == |draws| {
        NotCovered(a[..], p, draws);
        return false, p;
      }
      var r := draws[d];
      assert a[..][r] == INVALID_RAND;
      ProgressStep(p, draws, d);
      d := d + 1;
      if a[index] == INVALID_RAND && index != r {
        ChainStep(a[..], p, r);
        a[index] := r;
        index := r;
        p := p + [r];
      }
      var last := LastFreeElem(a);
      if last {
        ChainEnds(a[..], p);
        a[index] := n;
        Finished(a[..], p, draws, d);
        return true, p;
      }
      OneLeft(a[..], index);
    }
  }

  lemma ProgressStart(draws: seq<nat>)
    ensures Progress([0], draws, 0)
  {
    assert draws[0..] == draws;
  }

  lemma OneLeft(a: seq<int>, i: nat)
    requires i < |a| && a[i] == INVALID_RAND
    ensures Unset(a) >= 1
  {
    UnsetUpdate(a, i, 0);
  }

  lemma Finished(a: seq<int>, p: seq<int>, draws: seq<nat>, d: nat)
    requires Hamiltonian(a, p) && 0 < d <= |draws| && Progress(p, draws, d)
    requires forall i :: 0 <= i < |draws| ==> 0 <= draws[i] < |a|
    ensures p == Visit([0], draws) && Covers(draws, |a|)
  {
    forall k | k in draws
      ensures k in p
    {
      var i :| 0 <= i < |draws| && draws[i] == k;
    }
    VisitStops(p, draws[d..]);
    forall k | 0 < k < |a|
      ensures k in draws
    {
      assert k in p;
    }
  }

  // ---------------------------------------------------------------------------
  // The buffer

  /** The number of elements in `nblk` blocks of `n`. */
  function Elems(nblk: nat, n: nat): nat {
    nblk * n
  }

  /** The pointers written into one block whose first element is number `first`. */
  function Block(a: seq<int>, base: int, first: int): (b: seq<int>)
    ensures |b| == |a|
  {
    seq(|a|, j requires 0 <= j < |a| => base + (first + a[j]) * BUF_ELE_SIZE)
  }

  function Blocks(a: seq<int>, base: int, nblk: nat): (b: seq<int>)
    ensures |b| == Elems(nblk, |a|)
  {
    if nblk == 0 then []
    else
      assert (nblk - 1) * |a| + |a| == nblk * |a|;
      Blocks(a, base, nblk - 1) + Block(a, base, (nblk - 1) * |a|)
  }

  lemma {:induction false} BlocksAt(a: seq<int>, base: int, nblk: nat, b: nat, j: nat)
    requires b < nblk && j < |a|
    ensures 0 <= b * |a| + j < nblk * |a|
    ensures Blocks(a, base, nblk)[b * |a| + j] == base + (b * |a| + a[j]) * BUF_ELE_SIZE
  {
    var n := |a|;
    assert (nblk - 1) * n + n == nblk * n;
    if b < nblk - 1 {
      BlocksAt(a, base, nblk - 1, b, j);
    }
  }

  /** The whole buffer: the blocks, with the last block's final pointer sent home. */
  ghost predicate Stitched(cells: seq<int>, a: seq<int>, p: seq<int>, base: int, nblk: nat)
    requires Hamiltonian(a, p)
  {
    var last := (nblk - 1) * |a| + p[|p| - 1];
    && nblk * |a| <= |cells|
    && (nblk > 0 ==> 0 <= last < nblk * |a| && cells[..nblk * |a|] == Blocks(a, base, nblk)[last := base])
  }

  lemma BlocksNone(a: seq<int>, base: int)
    ensures Blocks(a, base, 0) == []
  {
  }

  lemma BlocksMore(a: seq<int>, base: int, i: nat)
    ensures Blocks(a, base, i + 1) == Blocks(a, base, i) + Block(a, base, Elems(i, |a|))
  {
  }

  lemma {:induction false} RowsFit(i: nat, rows: nat, n: nat)
    requires i < rows
    ensures i * n + n <= rows * n
    decreases rows
  {
    if i + 1 < rows {
      RowsFit(i, rows - 1, n);
    }
  }

  lemma EndIsLast(a: seq<int>, p: seq<int>, j: nat)
    requires Hamiltonian(a, p) && j < |a|
    ensures a[j] == |a| <==> j == p[|p| - 1]
  {
    assert j in p;
    var i :| 0 <= i < |p| && p[i] == j;
    assert i < |p| - 1 ==> a[p[i]] == p[i + 1];
  }

  /** How many whole blocks of `n` elements a buffer of `size` bytes has. */
  function NumBlocks(size: nat, n: nat): (nblk: nat)
    requires n > 0
    ensures WholeBlocks(nblk, n, size)
  {
    size / (n * BUF_ELE_SIZE)
  }

  /** Blocks of `n` elements are in the buffer, and less than one more would fit. */
  predicate WholeBlocks(nblk: nat, n: nat, size: nat) {
    nblk * (n * BUF_ELE_SIZE) <= size < (nblk + 1) * (n * BUF_ELE_SIZE)
  }

  lemma BlocksFit(nblk: nat, n: nat, size: nat)
    requires n > 0 && WholeBlocks(nblk, n, size)
    ensures Elems(nblk, n) <= size / BUF_ELE_SIZE
  {
    assert nblk * (n * BUF_ELE_SIZE) == (nblk * n) * BUF_ELE_SIZE;
  }

  /** `rand_buf_init` over a buffer of `size` bytes at address `base`. */
  method RandBufInit(cells: array<int>, a: array<int>, base: int, size: nat, ghost p: seq<int>) returns (ghost nblk: nat)
    requires cells != a && Hamiltonian(a[..], p) && cells.Length == size / BUF_ELE_SIZE
    modifies cells
    ensures a.Length > 0 && WholeBlocks(nblk, a.Length, size) && Elems(nblk, a.Length) <= cells.Length
    ensures Hamiltonian(a[..], p) && Stitched(cells[..], a[..], p, base, nblk)
    ensures forall k :: Elems(nblk, a.Length) <= k < cells.Length ==> cells[k] == old(cells[k])
  {
    hide Hamiltonian, Stitched, WholeBlocks, NumBlocks, Elems;
    HamiltonianEnd(a[..], p);
    var n := NumBlocks(size, a.Length);
    nblk := n;
    BlocksFit(n, a.Length, size);
    FillBlocks(cells, a, base, n, p);
  }

  /** The inner loop: one block, from element `start` on; `end` is its last element's slot. */
  method FillBlock(cells: array<int>, a: array<int>, base: int, start: nat, ghost p: seq<int>) returns (end: nat)
    requires cells != a && Hamiltonian(a[..], p) && start + a.Length <= cells.Length
    modifies cells
    ensures cells[start..start + a.Length] == Block(a[..], base, start)
    ensures forall c :: 0 <= c < cells.Length && !(start <= c < start + a.Length) ==> cells[c] == old(cells[c])
    ensures end == start + p[|p| - 1] < start + a.Length
  {
    hide Hamiltonian;
    HamiltonianEnd(a[..], p);
    end := start;
    for j := 0 to a.Length
      invariant forall i :: 0 <= i < j ==> cells[start + i] == base + (start + a[i]) * BUF_ELE_SIZE
      invariant forall c :: 0 <= c < cells.Length && !(start <= c < start + j) ==> cells[c] == old(cells[c])
      invariant p[|p| - 1] < j ==> end == start + p[|p| - 1]
    {
      EndIsLast(a[..], p, j);
      if a[j] == a.Length {
        end := start + j;
      }
      cells[start + j] := base + (start + a[j]) * BUF_ELE_SIZE;
    }
  }

  method FillBlocks(cells: array<int>, a: array<int>, base: int, nblk: nat, ghost p: seq<int>)
    requires cells != a && Hamiltonian(a[..], p)
    requires Elems(nblk, a.Length) <= cells.Length
    modifies cells
    ensures Hamiltonian(a[..], p) && Stitched(cells[..], a[..], p, base, nblk)
    ensures forall k :: Elems(nblk, a.Length) <= k < cells.Length ==> cells[k] == old(cells[k])
  {
    hide *;
    HamiltonianEnd(a[..], p);
    BlocksNone(a[..], base);
    NoElems(a.Length);
    ghost var s := a[..];
    var start: nat, end := 0, -1;
    for i := 0 to nblk
      invariant a[..] == s && start == Elems(i, a.Length) <= cells.Length
      invariant cells[..start] == Blocks(s, base, i)
      invariant forall c :: start <= c < cells.Length ==> cells[c] == old(cells[c])
      invariant end == if i == 0 then -1 else start - a.Length + p[|p| - 1]
      invariant i > 0 ==> 0 <= end < start
    {
      NextRow(i, nblk, a.Length);
      label Before:
      end := FillBlock(cells, a, base, start, p);
      BlocksMore(s, base, i);
      Appended(old@Before(cells[..]), cells[..], start, a.Length);
      start := start + a.Length;
    }
    ghost var blocks := cells[..start];
    if end != -1 {
      cells[end] := base;
      assert cells[..start] == blocks[end := base];
    }
    StitchedIntro(cells[..], a[..], p, base, nblk, start);
  }

  lemma Appended(was: seq<int>, now: seq<int>, start: nat, n: nat)
    requires |was| == |now| && start + n <= |now| && forall c :: 0 <= c < start ==> now[c] == was[c]
    ensures now[..start + n] == was[..start] + now[start..start + n]
  {
  }

  lemma NoElems(n: nat)
    ensures Elems(0, n) == 0
  {
  }

  lemma NextRow(i: nat, rows: nat, n: nat)
    requires i < rows
    ensures Elems(i + 1, n) == Elems(i, n) + n <= Elems(rows, n)
  {
    RowsFit(i, rows, n);
  }

  lemma StitchedIntro(cells: seq<int>, a: seq<int>, p: seq<int>, base: int, nblk: nat, size: nat)
    requires Hamiltonian(a, p) && size == Elems(nblk, |a|) <= |cells|
    requires nblk > 0 ==> 0 <= size - |a| + p[|p| - 1] < size
    requires nblk > 0 ==> cells[..size] == Blocks(a, base, nblk)[size - |a| + p[|p| - 1] := base]
    ensures Stitched(cells, a, p, base, nblk)
  {
    assert nblk > 0 ==> (nblk - 1) * |a| == size - |a|;
  }

  // ---------------------------------------------------------------------------
  // The cycle

  /** The address reached from `base` after `s` dependent reads. */
  function Walk(cells: seq<int>, base: int, s: nat): int {
    if s == 0 then base
    else
      var at := Walk(cells, base, s - 1);
      var k := (at - base) / BUF_ELE_SIZE;
      if 0 <= k < |cells| then cells[k] else at
  }

  /** After `s` reads the walk is at element number `e`. */
  predicate At(cells: seq<int>, base: int, s: nat, e: int) {
    Walk(cells, base, s) == base + e * BUF_ELE_SIZE
  }

  /** Step `s` reaches some element of block s / n. */
  ghost predicate InBlock(cells: seq<int>, base: int, n: nat, nblk: nat, s: nat)
    requires n > 0
  {
    exists e :: 0 <= e < nblk * n && e / n == s / n && At(cells, base, s, e)
  }

  /** Element `e` is reached within nblk * n steps. */
  ghost predicate Visited(cells: seq<int>, base: int, n: nat, nblk: nat, e: nat) {
    exists s :: 0 <= s < nblk * n && At(cells, base, s, e)
  }

  lemma WalkStep(cells: seq<int>, base: int, s: nat, k: nat)
    requires Walk(cells, base, s) == base + k * BUF_ELE_SIZE && k < |cells|
    ensures Walk(cells, base, s + 1) == cells[k]
  {
  }

  /** Where the pointers of the finished buffer lead. */
  lemma StitchedAt(cells: seq<int>, a: seq<int>, p: seq<int>, base: int, nblk: nat, b: nat, t: nat)
    requires Hamiltonian(a, p) && Stitched(cells, a, p, base, nblk) && b < nblk && t < |a|
    ensures 0 <= b * |a| + p[t] < nblk * |a|
    ensures cells[b * |a| + p[t]] ==
            if t < |a| - 1 then base + (b * |a| + p[t + 1]) * BUF_ELE_SIZE
            else if b < nblk - 1 then base + (b * |a| + |a|) * BUF_ELE_SIZE
            else base
  {
    hide Blocks;
    var n := |a|;
    var k, last := b * n + p[t], (nblk - 1) * n + p[n - 1];
    BlocksAt(a, base, nblk, b, p[t]);
    assert k == last <==> b == nblk - 1 && t == n - 1 by {
      if b < nblk - 1 {
        RowsFit(b, nblk - 1, n);
      }
    }
    assert cells[k] == cells[..nblk * n][k];
  }

  lemma {:induction false} WalkAt(cells: seq<int>, a: seq<int>, p: seq<int>, base: int, nblk: nat, b: nat, t: nat)
    requires Hamiltonian(a, p) && Stitched(cells, a, p, base, nblk) && b < nblk && t < |a|
    ensures 0 <= b * |a| + t && Walk(cells, base, b * |a| + t) == base + (b * |a| + p[t]) * BUF_ELE_SIZE
    decreases b, t
  {
    hide Stitched, Walk, Blocks;
    var n := |a|;
    if t > 0 {
      WalkAt(cells, a, p, base, nblk, b, t - 1);
      StitchedAt(cells, a, p, base, nblk, b, t - 1);
      StitchedSize(cells, a, p, base, nblk);
      WalkStep(cells, base, b * n + t - 1, b * n + p[t - 1]);
    } else if b > 0 {
      assert (b - 1) * n + n == b * n;
      WalkAt(cells, a, p, base, nblk, b - 1, n - 1);
      StitchedAt(cells, a, p, base, nblk, b - 1, n - 1);
      StitchedSize(cells, a, p, base, nblk);
      WalkStep(cells, base, b * n - 1, (b - 1) * n + p[n - 1]);
    } else {
      WalkStart(cells, base);
    }
  }

  lemma WalkStart(cells: seq<int>, base: int)
    ensures Walk(cells, base, 0) == base
  {
  }

  lemma StitchedSize(cells: seq<int>, a: seq<int>, p: seq<int>, base: int, nblk: nat)
    requires Hamiltonian(a, p) && Stitched(cells, a, p, base, nblk)
    ensures nblk * |a| <= |cells|
  {
  }

  lemma Divide(s: nat, n: nat, nblk: nat) returns (b: nat, t: nat)
    requires n > 0 && s < nblk * n
    ensures s == b * n + t && t < n && b < nblk && b == s / n
  {
    b, t := s / n, s % n;
    if b >= nblk {
      if b > nblk {
        RowsFit(nblk, b, n);
      }
      assert false;
    }
  }

  lemma SamePlace(n: nat, b: nat, t: nat, b': nat, t': nat)
    requires t < n && t' < n && b * n + t == b' * n + t'
    ensures b == b' && t == t'
  {
    if b < b' {
      RowsFit(b, b', n);
    } else if b' < b {
      RowsFit(b', b, n);
    }
  }

  /** Step s is in block s / N: every block is finished before the next is entered. */
  lemma WalkInBlock(cells: seq<int>, a: seq<int>, p: seq<int>, base: int, nblk: nat, s: nat) returns (e: nat)
    requires Hamiltonian(a, p) && Stitched(cells, a, p, base, nblk) && s < nblk * |a|
    ensures At(cells, base, s, e) && e < nblk * |a| && e / |a| == s / |a|
  {
    hide Stitched, Walk, Blocks;
    var n := |a|;
    var b, t := Divide(s, n, nblk);
    WalkAt(cells, a, p, base, nblk, b, t);
    StitchedAt(cells, a, p, base, nblk, b, t);
    e := b * n + p[t];
    var b', t' := Divide(e, n, nblk);
    SamePlace(n, b, p[t], b', t');
  }

  lemma WalkInjective(cells: seq<int>, a: seq<int>, p: seq<int>, base: int, nblk: nat, s: nat, s': nat)
    requires Hamiltonian(a, p) && Stitched(cells, a, p, base, nblk) && s < s' < nblk * |a|
    ensures Walk(cells, base, s) != Walk(cells, base, s')
  {
    hide Stitched, Walk, Blocks;
    var n := |a|;
    var b, t := Divide(s, n, nblk);
    var b', t' := Divide(s', n, nblk);
    WalkAt(cells, a, p, base, nblk, b, t);
    WalkAt(cells, a, p, base, nblk, b', t');
    if b * n + p[t] == b' * n + p[t'] {
      SamePlace(n, b, p[t], b', p[t']);
    }
  }

  lemma WalkOnto(cells: seq<int>, a: seq<int>, p: seq<int>, base: int, nblk: nat, e: nat) returns (s: nat)
    requires Hamiltonian(a, p) && Stitched(cells, a, p, base, nblk) && e < nblk * |a|
    ensures s < nblk * |a| && At(cells, base, s, e)
  {
    hide Stitched, Walk, Blocks;
    var n := |a|;
    var b, j := Divide(e, n, nblk);
    assert j in p;
    var t :| 0 <= t < |p| && p[t] == j;
    WalkAt(cells, a, p, base, nblk, b, t);
    RowsFit(b, nblk, n);
    s := b * n + t;
  }

  lemma WalkReturns(cells: seq<int>, a: seq<int>, p: seq<int>, base: int, nblk: nat)
    requires Hamiltonian(a, p) && Stitched(cells, a, p, base, nblk) && nblk > 0
    ensures Walk(cells, base, nblk * |a|) == base
  {
    hide Stitched, Walk, Blocks;
    var n := |a|;
    StitchedSize(cells, a, p, base, nblk);
    assert (nblk - 1) * n + n == nblk * n;
    WalkAt(cells, a, p, base, nblk, nblk - 1, n - 1);
    StitchedAt(cells, a, p, base, nblk, nblk - 1, n - 1);
    WalkStep(cells, base, nblk * n - 1, (nblk - 1) * n + p[n - 1]);
  }

  /** Following the pointers from the buffer's start reaches all nblk * n elements once
      each, finishes every block before the next, and is back after exactly nblk * n steps. */
  ghost predicate Cycle(cells: seq<int>, base: int, n: nat, nblk: nat)
    requires n > 0
  {
    && Walk(cells, base, nblk * n) == base
    && (forall s, s' :: 0 <= s < s' < nblk * n ==> Walk(cells, base, s) != Walk(cells, base, s'))
    && (forall s :: 0 <= s < nblk * n ==> InBlock(cells, base, n, nblk, s))
    && (forall e :: 0 <= e < nblk * n ==> Visited(cells, base, n, nblk, e))
  }

  lemma PointerCycle(cells: seq<int>, a: seq<int>, p: seq<int>, base: int, nblk: nat)
    requires Hamiltonian(a, p) && Stitched(cells, a, p, base, nblk) && nblk > 0
    ensures Cycle(cells, base, |a|, nblk)
  {
    hide Stitched, Walk, Blocks, Hamiltonian, At;
    HamiltonianEnd(a, p);
    WalkReturns(cells, a, p, base, nblk);
    forall s, s' | 0 <= s < s' < nblk * |a|
      ensures Walk(cells, base, s) != Walk(cells, base, s')
    {
      WalkInjective(cells, a, p, base, nblk, s, s');
    }
    forall s | 0 <= s < nblk * |a|
      ensures InBlock(cells, base, |a|, nblk, s)
    {
      var e := WalkInBlock(cells, a, p, base, nblk, s);
    }
    forall e | 0 <= e < nblk * |a|
      ensures Visited(cells, base, |a|, nblk, e)
    {
      var s := WalkOnto(cells, a, p, base, nblk, e);
    }
  }

  /** Element e lies in a whole block of a buffer of `size` bytes. */
  predicate InWholeBlock(e: nat, n: nat, size: nat)
    requires n > 0
  {
    (e / n + 1) * (n * BUF_ELE_SIZE) <= size
  }

  /** Some number of dependent reads from the buffer's start reaches element e. */
  ghost predicate OnWalk(cells: seq<int>, base: int, e: nat) {
    exists s: nat :: At(cells, base, s, e)
  }

  lemma RowsBelow(i: nat, rows: nat, n: nat)
    ensures i * n < rows * n ==> i < rows
  {
    assert i >= rows ==> i * n == (i - rows) * n + rows * n;
  }

  lemma WholeBlockVisited(cells: seq<int>, base: int, n: nat, nblk: nat, size: nat, e: nat)
    requires n > 0 && WholeBlocks(nblk, n, size) && InWholeBlock(e, n, size) && (nblk > 0 ==> Cycle(cells, base, n, nblk))
    ensures OnWalk(cells, base, e)
  {
    hide Cycle, At;
    var b := e / n;
    RowsBelow(b + 1, nblk + 1, n * BUF_ELE_SIZE);
    RowsFit(b, nblk, n);
    assert e < nblk * n;
    CycleVisits(cells, base, n, nblk, e);
  }

  lemma CycleVisits(cells: seq<int>, base: int, n: nat, nblk: nat, e: nat)
    requires n > 0 && e < nblk * n && Cycle(cells, base, n, nblk)
    ensures OnWalk(cells, base, e)
  {
    assert Visited(cells, base, n, nblk, e);
  }

  /** `buf_init`: whenever the random path completes, the whole blocks of the buffer are one
      cycle, and less than one block is left over. */
  method BufInit(cells: array<int>, a: array<int>, base: int, size: nat, draws: seq<nat>)
    returns (done: bool, ghost nblk: nat)
    requires cells != a && a.Length > 0 && forall i :: 0 <= i < |draws| ==> 0 <= draws[i] < a.Length
    requires cells.Length == size / BUF_ELE_SIZE
    modifies cells, a
    ensures done <==> Covers(draws, a.Length)
    ensures WholeBlocks(nblk, a.Length, size)
    ensures done && nblk > 0 ==> Cycle(cells[..], base, a.Length, nblk)
    ensures done ==> forall e: nat :: InWholeBlock(e, a.Length, size) ==> OnWalk(cells[..], base, e)
  {
    hide *;
    ghost var p;
    done, p := RandArrayInit(a, draws);
    nblk := NumBlocks(size, a.Length);
    if done {
      nblk := RandBufInit(cells, a, base, size, p);
      if nblk > 0 {
        PointerCycle(cells[..], a[..], p, base, nblk);
      }
      forall e: nat | InWholeBlock(e, a.Length, size)
        ensures OnWalk(cells[..], base, e)
      {
        WholeBlockVisited(cells[..], base, a.Length, nblk, size, e);
      }
    }
  }

  lemma HamiltonianEnd(a: seq<int>, p: seq<int>)
    requires Hamiltonian(a, p)
    ensures |p| == |a| > 0 && 0 <= p[|p| - 1] < |a|
  {
  }
}
