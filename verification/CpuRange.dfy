/**
 CPU ids printed as ranges, and ranges expanded to ids.
 */
module CpuRange {
  import opened Basics
  import opened Libc

  /** A number, a range, or text that is neither. */
  datatype Token = One(id: int) | Range(start: int, end: int) | Junk

  datatype Piece = Text(token: Token) | Space | Dash

  /** Ids from `start`, `num` of them. */
  function Count(start: int, num: nat): (s: seq<int>)
    ensures |s| == num && forall i :: 0 <= i < num ==> s[i] == start + i
  {
    seq(num, i => start + i)
  }

  /** No range runs backwards. */
  predicate Forward(ts: seq<Token>) {
    forall i :: 0 <= i < |ts| && ts[i].Range? ==> ts[i].start <= ts[i].end
  }

  /** How many ids a token adds; a range written backwards takes some away. */
  function Num(t: Token): int {
    match t
    case One(_) => 1
    case Range(start, end) => end - start + 1
    case Junk => 0
  }

  function From(t: Token): int
    requires !t.Junk?
  {
    if t.One? then t.id else t.start
  }

  /** The ids meant: a backward range takes away from those before it. */
  function Fold(acc: seq<int>, ts: seq<Token>): seq<int>
    decreases ts
  {
    if ts == [] then acc else Fold(Extended(acc, ts[0]), ts[1..])
  }

  function Extended(acc: seq<int>, t: Token): seq<int> {
    if t.Junk? then acc
    else if Num(t) >= 0 then acc + Count(From(t), Num(t))
    else if |acc| + Num(t) >= 0 then acc[..|acc| + Num(t)]
    else []
  }

  function Expand(ts: seq<Token>): seq<int> {
    Fold([], ts)
  }

  function Put(arr: seq<int>, index: nat, value: int, num: nat): (r: seq<int>)
    requires index + num <= |arr|
    ensures |r| == |arr| && r[..index] == arr[..index] && r[index..index + num] == Count(value, num)
  {
    arr[..index] + Count(value, num) + arr[index + num..]
  }

  /** `Outside`: a value is about to be written before the array. */
  datatype Added = Ok | Full | Outside

  /** What adding `num` values at `index` comes to in an array of this size. */
  function AddResult(size: nat, index: int, num: int): Added {
    if index >= size || index + num > size then Full
    else if index < 0 && num > 0 then Outside
    else Ok
  }

  function AddTo(arr: seq<int>, index: int, value: int, num: int): (r: seq<int>)
    requires AddResult(|arr|, index, num).Ok?
    ensures |r| == |arr|
  {
    if num > 0 then Put(arr, index, value, num) else arr
  }

  /** `arrary_add`; it stops where the original leaves the array. */
  method ArrayAdd(arr: array<int>, index: int, value: int, num: int) returns (r: Added)
    modifies arr
    ensures r == AddResult(arr.Length, index, num)
    ensures arr[..] == if r.Ok? then AddTo(old(arr[..]), index, value, num) else old(arr[..])
  {
    if index >= arr.Length || index + num > arr.Length {
      return Full;
    }
    if num > 0 {
      if index < 0 {
        return Outside;
      }
      for i := 0 to num
        invariant arr[..index] == old(arr[..index]) && arr[index + i..] == old(arr[index + i..])
        invariant arr[index..index + i] == Count(value, i)
      {
        arr[index + i] := value + i;
      }
      assert arr[..] == arr[..index] + arr[index..index + num] + arr[index + num..];
    }
    return Ok;
  }

  datatype Outcome = Done(arr: seq<int>, total: int) | Failed | Escaped

  /** `str_int_extract`, from an array and a running total: text it cannot read is passed
      over. */
  function Walk(ts: seq<Token>, arr: seq<int>, total: int): (o: Outcome)
    ensures o.Done? ==> |o.arr| == |arr|
    decreases ts
  {
    if ts == [] then Done(arr, total)
    else
      var t := ts[0];
      if t.Junk? then Walk(ts[1..], arr, total)
      else
        match AddResult(|arr|, total, Num(t))
        case Full => Failed
        case Outside => Escaped
        case Ok => Walk(ts[1..], AddTo(arr, total, From(t), Num(t)), total + Num(t))
  }

  /** `str_int_extract`, on the tokens between its commas. */
  method Extract(ts: seq<Token>, arr: array<int>) returns (r: Added, total: int)
    modifies arr
    ensures var o := Walk(ts, old(arr[..]), 0);
            match r
            case Ok => o == Done(arr[..], total)
            case Full => o == Failed
            case Outside => o == Escaped
  {
    hide AddTo, AddResult;
    ghost var want := Walk(ts, arr[..], 0);
    total := 0;
    r := Ok;
    var i := 0;
    assert ts[0..] == ts;
    while i < |ts|
      invariant 0 <= i <= |ts| && r.Ok? && Walk(ts[i..], arr[..], total) == want
    {
      assert ts[i..][0] == ts[i] && ts[i..][1..] == ts[i + 1..];
      if !ts[i].Junk? {
        r := ArrayAdd(arr, total, From(ts[i]), Num(ts[i]));
        if !r.Ok? {
          return;
        }
        total := total + Num(ts[i]);
      }
      i := i + 1;
    }
  }

  // ---------------------------------------------------------------------------
  // When it stays inside the array, and what it leaves there

  function Sum(ts: seq<Token>): int {
    if ts == [] then 0 else Num(ts[0]) + Sum(ts[1..])
  }

  /** The i-th token finds room. */
  predicate HasRoom(ts: seq<Token>, total: int, size: int, i: nat)
    requires i < |ts|
  {
    ts[i].Junk? || (total + Sum(ts[..i]) < size && total + Sum(ts[..i]) + Num(ts[i]) <= size)
  }

  /** The first i + 1 tokens find room, and the i-th adds ids when more were taken away
      than added. */
  predicate Below(ts: seq<Token>, total: int, size: int, i: nat) {
    && i < |ts| && Num(ts[i]) > 0 && total + Sum(ts[..i]) < 0
    && forall k: nat :: k <= i ==> HasRoom(ts, total, size, k)
  }

  ghost predicate Dips(ts: seq<Token>, total: int, size: int) {
    exists i: nat :: Below(ts, total, size, i)
  }

  lemma RoomShift(ts: seq<Token>, rest: seq<Token>, total: int, next: int, size: int, i: nat)
    requires ts != [] && i < |rest| && rest == ts[1..] && next == total + Num(ts[0])
    ensures total + Sum(ts[..i + 1]) == next + Sum(rest[..i])
    ensures HasRoom(ts, total, size, i + 1) <==> HasRoom(rest, next, size, i)
  {
    assert ts[..i + 1][1..] == rest[..i];
  }

  lemma BelowShift(ts: seq<Token>, rest: seq<Token>, total: int, next: int, size: int, i: nat)
    requires ts != [] && rest == ts[1..] && next == total + Num(ts[0])
    ensures Below(ts, total, size, i + 1) <==> HasRoom(ts, total, size, 0) && Below(rest, next, size, i)
  {
    hide HasRoom;
    if i < |rest| {
      RoomShift(ts, rest, total, next, size, i);
      if Below(ts, total, size, i + 1) {
        forall k: nat | k <= i
          ensures HasRoom(rest, next, size, k)
        {
          RoomShift(ts, rest, total, next, size, k);
          assert HasRoom(ts, total, size, k + 1);
        }
        assert HasRoom(ts, total, size, 0);
      }
      if Below(rest, next, size, i) && HasRoom(ts, total, size, 0) {
        forall k: nat | k <= i + 1
          ensures HasRoom(ts, total, size, k)
        {
          if k > 0 {
            RoomShift(ts, rest, total, next, size, k - 1);
            assert HasRoom(rest, next, size, k - 1);
          }
        }
      }
    }
  }

  lemma DipsShift(ts: seq<Token>, rest: seq<Token>, total: int, next: int, size: int)
    requires ts != [] && rest == ts[1..] && next == total + Num(ts[0])
    ensures Dips(ts, total, size) <==> Below(ts, total, size, 0) || (HasRoom(ts, total, size, 0) && Dips(rest, next, size))
  {
    hide Below, HasRoom;
    if i: nat :| Below(ts, total, size, i) {
      if i > 0 {
        BelowShift(ts, rest, total, next, size, i - 1);
        assert Below(rest, next, size, i - 1);
      }
    }
    if i: nat :| Below(rest, next, size, i) {
      BelowShift(ts, rest, total, next, size, i);
    }
  }

  /** It leaves the array if and only if a token that adds ids, and finds room, comes when
      the ranges before it have taken away more than was added. */
  lemma {:induction false} EscapesIff(ts: seq<Token>, arr: seq<int>, total: int)
    ensures Walk(ts, arr, total).Escaped? <==> Dips(ts, total, |arr|)
    decreases ts
  {
    if ts != [] {
      var n := Num(ts[0]);
      assert ts[..0] == [];
      var next := if ts[0].Junk? || !AddResult(|arr|, total, n).Ok? then arr else AddTo(arr, total, From(ts[0]), n);
      EscapesIff(ts[1..], next, total + n);
      assert HasRoom(ts, total, |arr|, 0) <==> ts[0].Junk? || !AddResult(|arr|, total, n).Full?;
      assert Below(ts, total, |arr|, 0) <==> n > 0 && total < 0 && HasRoom(ts, total, |arr|, 0);
      DipsShift(ts, ts[1..], total, total + n, |arr|);
    }
  }

  /** The text "7-5,3". */
  lemma BackwardEscapes(arr: seq<int>)
    requires arr != []
    ensures Walk([Range(7, 5), One(3)], arr, 0).Escaped?
  {
    assert [Range(7, 5), One(3)][1..] == [One(3)];
  }

  /** Once below zero the total never comes back. */
  lemma {:induction false} StaysBelow(ts: seq<Token>, arr: seq<int>, total: int)
    requires total < 0
    ensures var o := Walk(ts, arr, total); o.Done? ==> o.total < 0
    decreases ts
  {
    if ts != [] && (ts[0].Junk? || AddResult(|arr|, total, Num(ts[0])).Ok?) {
      var n := Num(ts[0]);
      StaysBelow(ts[1..], if ts[0].Junk? then arr else AddTo(arr, total, From(ts[0]), n), total + n);
    }
  }

  /** If it ends with a count that makes sense, the array starts with the ids meant. */
  lemma {:induction false} WalkFolds(ts: seq<Token>, arr: seq<int>, total: nat)
    requires total <= |arr|
    ensures var o := Walk(ts, arr, total); o.Done? && o.total >= 0 ==> o.total <= |arr| && o.arr[..o.total] == Fold(arr[..total], ts)
    decreases ts
  {
    if ts != [] && (ts[0].Junk? || AddResult(|arr|, total, Num(ts[0])).Ok?) {
      var n := Num(ts[0]);
      var next := if ts[0].Junk? then arr else AddTo(arr, total, From(ts[0]), n);
      if total + n < 0 {
        StaysBelow(ts[1..], next, total + n);
      } else {
        WalkFolds(ts[1..], next, total + n);
        assert next[..total + n] == Extended(arr[..total], ts[0]);
      }
    }
  }

  /** Without backward ranges it fails exactly if the array is too small, and else the
      array starts with the expansion. */
  lemma {:induction false} ForwardWalks(ts: seq<Token>, arr: seq<int>, total: nat)
    requires Forward(ts) && total <= |arr|
    ensures var o := Walk(ts, arr, total); var all := Fold(arr[..total], ts);
            if |all| <= |arr| then o.Done? && o.total == |all| && o.arr[..o.total] == all else o.Failed?
    decreases ts
  {
    WalkFolds(ts, arr, total);
    if ts != [] {
      assert Forward(ts[1..]);
      var n := Num(ts[0]);
      var acc := Extended(arr[..total], ts[0]);
      FoldGrows(acc, ts[1..]);
      if ts[0].Junk? || AddResult(|arr|, total, n).Ok? {
        var next := if ts[0].Junk? then arr else AddTo(arr, total, From(ts[0]), n);
        ForwardWalks(ts[1..], next, total + n);
        assert next[..total + n] == acc;
      }
    }
  }

  lemma {:induction false} FoldGrows(acc: seq<int>, ts: seq<Token>)
    requires Forward(ts)
    ensures |Fold(acc, ts)| >= |acc|
    decreases ts
  {
    if ts != [] {
      assert Forward(ts[1..]);
      FoldGrows(Extended(acc, ts[0]), ts[1..]);
    }
  }

  // ---------------------------------------------------------------------------
  // Compression

  function Run(start: int, num: nat): Token {
    if num == 1 then One(start) else Range(start, start + num - 1)
  }

  /** The ranges still to come, in the middle of a run. */
  function Rest(start: int, num: nat, ids: seq<int>): (ts: seq<Token>)
    ensures ts != []
    decreases ids
  {
    if ids == [] then [Run(start, num)]
    else if ids[0] == start + num then Rest(start, num + 1, ids[1..])
    else [Run(start, num)] + Rest(ids[0], 1, ids[1..])
  }

  function Compress(ids: seq<int>): (ts: seq<Token>)
    requires ids != []
    ensures ts != []
  {
    Rest(ids[0], 1, ids[1..])
  }

  function Joined(ts: seq<Token>): seq<Piece>
    requires ts != []
  {
    if |ts| == 1 then [Text(ts[0])] else [Text(ts[0]), Space] + Joined(ts[1..])
  }

  /** What one more id prints, in each of the four cases of the loop. */
  lemma PrintStep(start: int, l: nat, ids: seq<int>)
    requires ids != [] && l >= 1
    ensures var x, rest := ids[0], ids[1..]; var all := Joined(Rest(start, l, ids));
            if x == start + l then all == (if rest == [] then [Text(Range(start, start + l))] else Joined(Rest(start, l + 1, rest)))
            else all == [Text(Run(start, l)), Space] + (if rest == [] then [Text(One(x))] else Joined(Rest(x, 1, rest)))
  {
    var x, rest := ids[0], ids[1..];
    if x != start + l {
      assert ([Run(start, l)] + Rest(x, 1, rest))[1..] == Rest(x, 1, rest);
    }
  }

  lemma PrintOne(x: int)
    ensures Joined(Rest(x, 1, [])) == [Text(One(x))]
  {
  }

  /** The sorting and printing of `node_cpu_string`. */
  method PrintRanges(cpuids: seq<int>) returns (s: seq<Piece>)
    ensures cpuids != [] ==> Qsort(cpuids) != []
    ensures s == if cpuids == [] then [Dash] else Joined(Compress(Qsort(cpuids)))
  {
    hide Joined, Rest, Qsort;
    PrintOne(if cpuids == [] then 0 else Qsort(cpuids)[0]);
    if cpuids == [] {
      return [Dash];
    }
    var arr := Qsort(cpuids);
    var ncpus := |arr|;
    var start := arr[0];
    if ncpus == 1 {
      assert arr[1..] == [];
      return [Text(One(start))];
    }
    var l, k, j := 1, 1, 1;
    s := [];
    ghost var want := Joined(Compress(arr));
    while j < ncpus
      invariant 1 <= j == k <= ncpus && l >= 1
      invariant j < ncpus ==> s + Joined(Rest(start, l, arr[j..])) == want
      invariant j == ncpus ==> s == want
    {
      PrintStep(start, l, arr[j..]);
      assert arr[j..][0] == arr[j] && arr[j..][1..] == arr[j + 1..];
      k := k + 1;
      if arr[j] != start + l {
        if k < ncpus {
          s := s + (if l == 1 then [Text(One(start)), Space] else [Text(Range(start, start + l - 1)), Space]);
        } else {
          s := s + (if l == 1 then [Text(One(start))] else [Text(Range(start, start + l - 1))]);
          s := s + [Space, Text(One(arr[j]))];
        }
        start := arr[j];
        l := 1;
      } else if k == ncpus {
        s := s + [Text(Range(start, start + l))];
      } else {
        l := l + 1;
      }
      j := j + 1;
    }
  }

  // ---------------------------------------------------------------------------
  // The round trip

  lemma {:induction false} RestExpands(acc: seq<int>, start: int, num: nat, ids: seq<int>)
    requires num >= 1
    ensures Fold(acc, Rest(start, num, ids)) == acc + Count(start, num) + ids
    decreases ids
  {
    hide *;
    var run := Run(start, num);
    ExtendedRun(acc, start, num);
    RestIs(start, num, ids);
    if ids == [] {
      FoldFront(acc, run, []);
      FoldFront(acc + Count(start, num), run, []);
      assert acc + Count(start, num) + ids == acc + Count(start, num);
    } else if ids[0] == start + num {
      RestExpands(acc, start, num + 1, ids[1..]);
      CountMore(acc, start, num, ids);
    } else {
      RestExpands(acc + Count(start, num), ids[0], 1, ids[1..]);
      FoldFront(acc, run, Rest(ids[0], 1, ids[1..]));
      CountOne(acc + Count(start, num), ids);
    }
  }

  lemma ExtendedRun(acc: seq<int>, start: int, num: nat)
    requires num >= 1
    ensures Extended(acc, Run(start, num)) == acc + Count(start, num)
  {
  }

  lemma FoldFront(acc: seq<int>, t: Token, ts: seq<Token>)
    ensures Fold(acc, [t] + ts) == Fold(Extended(acc, t), ts) && Fold(acc, []) == acc
  {
    assert ([t] + ts)[1..] == ts;
  }

  lemma RestIs(start: int, num: nat, ids: seq<int>)
    ensures Rest(start, num, ids) ==
            if ids == [] then [Run(start, num)] + []
            else if ids[0] == start + num then Rest(start, num + 1, ids[1..])
            else [Run(start, num)] + Rest(ids[0], 1, ids[1..])
  {
  }

  lemma CountMore(acc: seq<int>, start: int, num: nat, ids: seq<int>)
    requires ids != [] && ids[0] == start + num
    ensures acc + Count(start, num + 1) + ids[1..] == acc + Count(start, num) + ids
  {
    assert Count(start, num + 1) + ids[1..] == Count(start, num) + ids;
  }

  lemma CountOne(acc: seq<int>, ids: seq<int>)
    requires ids != []
    ensures acc + Count(ids[0], 1) + ids[1..] == acc + ids
  {
  }

  /** Whatever the ids, expanding the printed ranges gives them back. */
  lemma RoundTrip(ids: seq<int>)
    requires ids != []
    ensures Expand(Compress(ids)) == ids
  {
    RestExpands([], ids[0], 1, ids[1..]);
    CountOne([], ids);
    assert [] + ids == ids;
  }

  function First(t: Token): int
    requires !t.Junk?
  {
    if t.One? then t.id else t.start
  }

  function Last(t: Token): int
    requires !t.Junk?
  {
    if t.One? then t.id else t.end
  }

  /** No two of the ranges touch or overlap, so none could be merged. */
  predicate Apart(ts: seq<Token>) {
    && (forall i :: 0 <= i < |ts| ==> !ts[i].Junk?)
    && forall i, j :: 0 <= i < j < |ts| ==> Last(ts[i]) + 1 < First(ts[j])
  }

  lemma ApartFront(t: Token, ts: seq<Token>)
    requires ts != [] && Apart(ts) && Forward(ts) && !t.Junk? && First(t) <= Last(t) && Last(t) + 1 < First(ts[0])
    ensures Apart([t] + ts) && Forward([t] + ts)
  {
    assert forall j :: 0 < j < |ts| ==> Last(ts[0]) + 1 < First(ts[j]);
    assert forall j :: 0 < j <= |ts| ==> ([t] + ts)[j] == ts[j - 1];
  }

  lemma {:induction false} RestApart(start: int, num: nat, ids: seq<int>)
    requires num >= 1 && StrictlySorted(ids) && (ids != [] ==> start + num <= ids[0])
    ensures var ts := Rest(start, num, ids); !ts[0].Junk? && First(ts[0]) == start && Apart(ts) && Forward(ts)
    decreases ids
  {
    if ids != [] {
      hide Apart, Forward;
      RestSorted(ids);
      if ids[0] == start + num {
        RestApart(start, num + 1, ids[1..]);
      } else {
        RestApart(ids[0], 1, ids[1..]);
        ApartFront(Run(start, num), Rest(ids[0], 1, ids[1..]));
      }
    }
  }

  lemma RestSorted(ids: seq<int>)
    requires StrictlySorted(ids) && ids != []
    ensures StrictlySorted(ids[1..]) && (ids[1..] != [] ==> ids[0] < ids[1..][0])
  {
  }

  /** An id that stands alone is printed alone. */
  predicate Tight(ts: seq<Token>) {
    forall i :: 0 <= i < |ts| && ts[i].Range? ==> ts[i].start < ts[i].end
  }

  lemma {:induction false} RestTight(start: int, num: nat, ids: seq<int>)
    requires num >= 1
    ensures Tight(Rest(start, num, ids))
    decreases ids
  {
    if ids != [] {
      if ids[0] == start + num {
        RestTight(start, num + 1, ids[1..]);
      } else {
        RestTight(ids[0], 1, ids[1..]);
        assert forall j :: 0 < j < |Rest(start, num, ids)| ==> Rest(start, num, ids)[j] == Rest(ids[0], 1, ids[1..])[j - 1];
      }
    }
  }

  /** The tokens, in order, with one space between any two. */
  predicate Spaced(s: seq<Piece>, ts: seq<Token>) {
    && |s| == 2 * |ts| - 1
    && forall i :: 0 <= i < |s| ==> s[i] == if i % 2 == 1 then Space else Text(ts[i / 2])
  }

  lemma {:induction false} JoinedSpaced(ts: seq<Token>)
    requires ts != []
    ensures Spaced(Joined(ts), ts)
  {
    if |ts| > 1 {
      var s, rest := Joined(ts), Joined(ts[1..]);
      JoinedSpaced(ts[1..]);
      forall i | 2 <= i < |s|
        ensures s[i] == if i % 2 == 1 then Space else Text(ts[i / 2])
      {
        assert s[i] == rest[i - 2] && (i - 2) % 2 == i % 2 && (i - 2) / 2 == i / 2 - 1;
      }
    }
  }

  /** The text printed for distinct ids: ranges with single spaces between them, apart,
      an id alone as itself, that expand to the ids in order. */
  lemma PrintedText(cpuids: seq<int>)
    requires Distinct(cpuids) && cpuids != []
    ensures Qsort(cpuids) != []
    ensures var ts := Compress(Qsort(cpuids));
            Spaced(Joined(ts), ts) && Tight(ts) && Apart(ts) && Forward(ts) && Expand(ts) == Qsort(cpuids)
  {
    hide *;
    PrintedRanges(cpuids);
    CompressIs(Qsort(cpuids));
    RestTight(Qsort(cpuids)[0], 1, Qsort(cpuids)[1..]);
    JoinedSpaced(Compress(Qsort(cpuids)));
  }

  lemma CompressIs(ids: seq<int>)
    requires ids != []
    ensures Compress(ids) == Rest(ids[0], 1, ids[1..])
  {
  }

  /** From distinct ids, the ranges are apart and expand to the ids in order. */
  lemma PrintedRanges(cpuids: seq<int>)
    requires Distinct(cpuids) && cpuids != []
    ensures Qsort(cpuids) != [] && Apart(Compress(Qsort(cpuids)))
    ensures Forward(Compress(Qsort(cpuids))) && Expand(Compress(Qsort(cpuids))) == Qsort(cpuids)
  {
    QsortDistinct(cpuids);
    assert cpuids[0] in Qsort(cpuids);
    var ids := Qsort(cpuids);
    assert forall i, j :: 0 <= i < j < |ids[1..]| ==> ids[1..][i] == ids[i + 1] && ids[1..][j] == ids[j + 1];
    RestApart(ids[0], 1, ids[1..]);
    RoundTrip(ids);
  }
}
