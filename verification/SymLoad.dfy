/**
 Loading a process's memory map and reading the symbols of its executable regions: a
 region that is still there at the next load is not read again.
 */
module SymLoad {
  import opened Basics
  import opened Libc

  datatype Span = Span(start: nat, end: nat)

  /** A line of the process's maps file. */
  datatype Region = Region(span: Span, exec: bool)
  datatype MapEntry = MapEntry(region: Region, needResolve: bool)

  /** The kernel lists regions in order, apart and not empty. */
  predicate Listed(r: seq<Region>) {
    && (forall i :: 0 <= i < |r| ==> r[i].span.start < r[i].span.end)
    && forall i, j :: 0 <= i < j < |r| ==> r[i].span.end <= r[j].span.start
  }

  function Regions(m: seq<MapEntry>): (r: seq<Region>)
    ensures |r| == |m| && forall i :: 0 <= i < |m| ==> r[i] == m[i].region
  {
    seq(|m|, i requires 0 <= i < |m| => m[i].region)
  }

  predicate Has(r: seq<Region>, s: Span) {
    exists i :: 0 <= i < |r| && r[i].span == s
  }

  /** The entry with exactly this span, by looking at each in turn. */
  function FindExact(m: seq<MapEntry>, s: Span): (k: int)
    ensures -1 <= k < |m|
    ensures k >= 0 ==> m[k].region.span == s
    ensures k < 0 ==> forall i :: 0 <= i < |m| ==> m[i].region.span != s
  {
    if m == [] then -1
    else if m[|m| - 1].region.span == s then |m| - 1
    else
      var k := FindExact(m[..|m| - 1], s);
      assert k < 0 ==> forall i :: 0 <= i < |m| - 1 ==> m[..|m| - 1][i] == m[i];
      k
  }

  function EntryaddrCmp(addr: nat, e: MapEntry): int {
    if addr < e.region.span.start then -1 else if addr >= e.region.span.end then 1 else 0
  }

  /** Whether a span's entry still waits for its symbols. */
  predicate Waits(m: seq<MapEntry>, s: Span) {
    exists i :: 0 <= i < |m| && m[i].region.span == s && m[i].needResolve
  }

  lemma OneEntry(m: seq<MapEntry>)
    requires Listed(Regions(m))
    ensures forall i, j :: 0 <= i < |m| && 0 <= j < |m| && m[i].region.span == m[j].region.span ==> i == j
    ensures forall i :: 0 <= i < |m| ==> m[i].region.span.start < m[i].region.span.end
  {
    var r := Regions(m);
    assert forall i :: 0 <= i < |m| ==> r[i] == m[i].region;
    assert forall i, j :: 0 <= i < j < |m| ==> r[i].span.start < r[j].span.start;
  }

  lemma FindsIff(m: seq<MapEntry>, s: Span)
    ensures FindExact(m, s) >= 0 <==> Has(Regions(m), s)
  {
    var k := FindExact(m, s);
    assert k >= 0 ==> Regions(m)[k].span == s;
  }

  // ---------------------------------------------------------------------------
  // A load, as a function

  /** The map, and how often each span's symbols were read. */
  datatype State = State(loaded: bool, arr: seq<MapEntry>, nread: multiset<Span>)

  const INIT := State(false, [], multiset{})

  function Fresh(r: seq<Region>): (m: seq<MapEntry>)
    ensures Regions(m) == r && forall i :: 0 <= i < |r| ==> m[i].needResolve
  {
    seq(|r|, i requires 0 <= i < |r| => MapEntry(r[i], true))
  }

  function Carried(was: seq<MapEntry>, e: Region): MapEntry {
    var k := FindExact(was, e.span);
    MapEntry(e, if k < 0 then true else was[k].needResolve)
  }

  /** The new map takes over what the old one knew about the same spans. */
  function Carry(was: seq<MapEntry>, r: seq<Region>): (m: seq<MapEntry>)
    ensures Regions(m) == r && forall i :: 0 <= i < |r| ==> m[i] == Carried(was, r[i])
  {
    seq(|r|, i requires 0 <= i < |r| => Carried(was, r[i]))
  }

  /** `map_proc_load`; a maps file that cannot be read, or is empty, changes nothing. */
  function Reload(s: State, maps: Option<seq<Region>>): State {
    if maps.None? || maps.value == [] then s
    else s.(loaded := true, arr := if s.loaded then Carry(s.arr, maps.value) else Fresh(maps.value))
  }

  predicate Due(e: MapEntry, func: bool) {
    e.needResolve && e.region.exec && func
  }

  function Read(e: MapEntry, func: bool): MapEntry {
    if Due(e, func) then e.(needResolve := false) else e
  }

  /** The spans read among the first k entries. */
  function ReadSpans(m: seq<MapEntry>, k: nat, func: bool): multiset<Span>
    requires k <= |m|
  {
    if k == 0 then multiset{}
    else ReadSpans(m, k - 1, func) + if Due(m[k - 1], func) then multiset{m[k - 1].region.span} else multiset{}
  }

  function ReadAll(m: seq<MapEntry>, func: bool): (r: seq<MapEntry>)
    ensures |r| == |m| && forall i :: 0 <= i < |m| ==> r[i] == Read(m[i], func)
  {
    seq(|m|, i requires 0 <= i < |m| => Read(m[i], func))
  }

  /** `sym_load` */
  function Loaded(s: State, maps: Option<seq<Region>>, func: bool): State {
    if maps.None? || maps.value == [] then s
    else
      var t := Reload(s, maps);
      t.(arr := ReadAll(t.arr, func), nread := t.nread + ReadSpans(t.arr, |t.arr|, func))
  }

  // ---------------------------------------------------------------------------
  // Runs

  /** One load: the maps file's contents, if it could be read, and whether function
      symbols are wanted. */
  datatype Event = Event(maps: Option<seq<Region>>, func: bool)

  predicate Lawful(e: Event) {
    e.maps.Some? ==> Listed(e.maps.value)
  }

  predicate Shows(e: Event) {
    e.maps.Some? && e.maps.value != []
  }

  predicate AllLawful(run: seq<Event>) {
    forall i :: 0 <= i < |run| ==> Lawful(run[i])
  }

  function LoadAll(s: State, run: seq<Event>): State
    decreases run
  {
    if run == [] then s else LoadAll(Loaded(s, run[0].maps, run[0].func), run[1..])
  }

  /** How often the span appears in a run, given whether it was there before: loads that
      show it when the last one that could be read did not. */
  function Appearances(there: bool, run: seq<Event>, s: Span): nat
    decreases run
  {
    if run == [] then 0
    else if !Shows(run[0]) then Appearances(there, run[1..], s)
    else (if Has(run[0].maps.value, s) && !there then 1 else 0) + Appearances(Has(run[0].maps.value, s), run[1..], s)
  }

  predicate Sane(s: State) {
    Listed(Regions(s.arr)) && (!s.loaded ==> s.arr == [])
  }

  function Debt(m: seq<MapEntry>, s: Span): (d: nat)
    ensures d <= 1
  {
    if Waits(m, s) then 1 else 0
  }

  /** A pass reads a span once if its entry is due. */
  lemma {:induction false} ReadSpansCount(m: seq<MapEntry>, k: nat, func: bool, s: Span)
    requires k <= |m| && Listed(Regions(m))
    ensures ReadSpans(m, k, func)[s] == if exists i :: 0 <= i < k && m[i].region.span == s && Due(m[i], func) then 1 else 0
  {
    if k > 0 {
      ReadSpansCount(m, k - 1, func, s);
      OneEntry(m);
    }
  }

  lemma PassKeeps(m: seq<MapEntry>, func: bool, s: Span)
    requires Listed(Regions(m))
    ensures Regions(ReadAll(m, func)) == Regions(m)
    ensures ReadSpans(m, |m|, func)[s] + Debt(ReadAll(m, func), s) == Debt(m, s)
  {
    ReadSpansCount(m, |m|, func, s);
    OneEntry(m);
    var r := ReadAll(m, func);
    if Waits(m, s) {
      var i :| 0 <= i < |m| && m[i].region.span == s && m[i].needResolve;
      assert r[i].region.span == s;
    }
  }

  lemma ReloadDebt(s: State, r: seq<Region>, sp: Span)
    requires Sane(s) && Listed(r) && r != []
    ensures var t := Reload(s, Some(r));
            && Sane(t) && Regions(t.arr) == r && t.nread == s.nread
            && Debt(t.arr, sp) == if !Has(r, sp) then 0 else if Has(Regions(s.arr), sp) then Debt(s.arr, sp) else 1
  {
    var t := Reload(s, Some(r));
    OneEntry(t.arr);
    OneEntry(s.arr);
    FindsIff(s.arr, sp);
    if Has(r, sp) {
      var i :| 0 <= i < |r| && r[i].span == sp;
      assert t.arr[i].region == r[i];
    }
    assert forall i :: 0 <= i < |r| ==> t.arr[i].region == r[i];
  }

  /** Over any run of loads a span's symbols are read at most once for each time it
      appears. */
  lemma {:induction false} ReadsBounded(s: State, run: seq<Event>, sp: Span)
    requires Sane(s) && AllLawful(run)
    ensures LoadAll(s, run).nread[sp] <= s.nread[sp] + Debt(s.arr, sp) + Appearances(Has(Regions(s.arr), sp), run, sp)
    decreases run
  {
    hide Has, Listed, Reload, ReadAll, ReadSpans, Regions, Debt;
    if run != [] {
      var e := run[0];
      assert Lawful(e);
      assert AllLawful(run[1..]);
      if Shows(e) {
        var t := Reload(s, e.maps);
        ReloadDebt(s, e.maps.value, sp);
        PassKeeps(t.arr, e.func, sp);
        LoadSane(s, e);
      }
      ReadsBounded(Loaded(s, e.maps, e.func), run[1..], sp);
    }
  }

  lemma LoadSane(s: State, e: Event)
    requires Sane(s) && Lawful(e) && Shows(e)
    ensures var t := Loaded(s, e.maps, e.func); Sane(t) && t.loaded && Regions(t.arr) == e.maps.value
  {
    assert Regions(ReadAll(Reload(s, e.maps).arr, e.func)) == Regions(Reload(s, e.maps).arr);
  }

  predicate Persists(run: seq<Event>, sp: Span) {
    forall i :: 0 <= i < |run| && Shows(run[i]) ==> Has(run[i].maps.value, sp)
  }

  /** A load for functions that shows the span as executable. */
  predicate Wants(e: Event, sp: Span) {
    Shows(e) && e.func && Region(sp, true) in e.maps.value
  }

  /** In how many of the span's stays in the map some load wants it. `there` and `read` say
      whether it is there now, and whether it was wanted in this stay. */
  function StaysWanted(there: bool, read: bool, run: seq<Event>, sp: Span): nat
    decreases run
  {
    if run == [] then 0
    else
      var e, seen := run[0], there && read;
      if !Shows(e) then StaysWanted(there, read, run[1..], sp)
      else if !Has(e.maps.value, sp) then StaysWanted(false, false, run[1..], sp)
      else if !seen && Wants(e, sp) then 1 + StaysWanted(true, true, run[1..], sp)
      else StaysWanted(true, seen, run[1..], sp)
  }

  lemma PassExact(m: seq<MapEntry>, func: bool, sp: Span)
    requires Listed(Regions(m))
    ensures Debt(ReadAll(m, func), sp) == if func && Region(sp, true) in Regions(m) then 0 else Debt(m, sp)
    ensures Region(sp, true) in Regions(m) ==> Has(Regions(m), sp)
  {
    OneEntry(m);
    var r := ReadAll(m, func);
    if i :| 0 <= i < |m| && m[i].region.span == sp {
      assert r[i].region == m[i].region == Regions(m)[i];
      assert Debt(m, sp) == if m[i].needResolve then 1 else 0;
      assert Debt(r, sp) == if r[i].needResolve then 1 else 0;
      assert Region(sp, true) in Regions(m) <==> m[i].region.exec;
    } else {
      assert forall i :: 0 <= i < |m| ==> r[i].region == m[i].region == Regions(m)[i];
    }
  }

  lemma LoadExact(s: State, e: Event, sp: Span)
    requires Sane(s) && Lawful(e) && Shows(e)
    ensures var t := Loaded(s, e.maps, e.func); var there := Has(Regions(s.arr), sp);
            && Sane(t) && Regions(t.arr) == e.maps.value
            && t.nread[sp] == s.nread[sp] + (if Wants(e, sp) && (there ==> Debt(s.arr, sp) == 1) then 1 else 0)
            && (Has(e.maps.value, sp) ==> Debt(t.arr, sp) == if Wants(e, sp) then 0 else if there then Debt(s.arr, sp) else 1)
  {
    hide Listed, Reload, ReadAll, ReadSpans, Regions, Debt, Has;
    var t := Reload(s, e.maps);
    ReloadDebt(s, e.maps.value, sp);
    PassKeeps(t.arr, e.func, sp);
    PassExact(t.arr, e.func, sp);
    LoadSane(s, e);
  }

  /** Over any run of loads a span's symbols are read exactly once for each of its stays in
      which some load for functions shows it executable. */
  lemma {:induction false} ReadsExact(s: State, run: seq<Event>, sp: Span)
    requires Sane(s) && AllLawful(run)
    ensures LoadAll(s, run).nread[sp] == s.nread[sp] +
              StaysWanted(Has(Regions(s.arr), sp), Has(Regions(s.arr), sp) && Debt(s.arr, sp) == 0, run, sp)
    decreases run
  {
    hide Has, Listed, Regions, Debt, Loaded, Sane;
    if run != [] {
      var e := run[0];
      assert Lawful(e);
      assert AllLawful(run[1..]);
      if Shows(e) {
        LoadExact(s, e, sp);
        WantsHas(e, sp);
      } else {
        LoadNothing(s, e);
      }
      ReadsExact(Loaded(s, e.maps, e.func), run[1..], sp);
    }
  }

  lemma WantsHas(e: Event, sp: Span)
    ensures Wants(e, sp) ==> Has(e.maps.value, sp)
  {
  }

  lemma LoadNothing(s: State, e: Event)
    requires !Shows(e)
    ensures Loaded(s, e.maps, e.func) == s
  {
  }

  lemma {:induction false} PersistsWanted(there: bool, read: bool, run: seq<Event>, sp: Span)
    requires Persists(run, sp)
    ensures StaysWanted(there, read, run, sp) ==
            if !(there && read) && exists i :: 0 <= i < |run| && Wants(run[i], sp) then 1 else 0
    decreases run
  {
    if run != [] {
      var e, rest, seen := run[0], run[1..], there && read;
      assert Persists(rest, sp);
      assert forall i :: 0 <= i < |rest| ==> rest[i] == run[i + 1];
      if !Shows(e) {
        PersistsWanted(there, read, rest, sp);
      } else {
        PersistsWanted(true, seen || Wants(e, sp), rest, sp);
      }
    }
  }

  /** A region that is there at every load from a process's first on is read once if some
      load for functions shows it executable, and never otherwise. */
  lemma ReadOnce(run: seq<Event>, sp: Span)
    requires AllLawful(run) && Persists(run, sp)
    ensures LoadAll(INIT, run).nread[sp] == if exists i :: 0 <= i < |run| && Wants(run[i], sp) then 1 else 0
  {
    ReadsExact(INIT, run, sp);
    PersistsWanted(false, false, run, sp);
    assert !Has(Regions(INIT.arr), sp);
  }

  /** Without persistence it is read again: gone at one load, back at the next. */
  lemma ReadTwice(sp: Span, other: Span)
    requires sp.start < sp.end <= other.start < other.end
    ensures var here, gone := Event(Some([Region(sp, true)]), true), Event(Some([Region(other, true)]), true);
            LoadAll(INIT, [here, gone, here]).nread[sp] == 2
  {
    var here, gone := Event(Some([Region(sp, true)]), true), Event(Some([Region(other, true)]), true);
    FirstRead(INIT, sp);
    var s := Loaded(INIT, here.maps, true);
    FirstRead(s, other);
    var t := Loaded(s, gone.maps, true);
    FirstRead(t, sp);
    var u := Loaded(t, here.maps, true);
    assert [here, gone, here][1..] == [gone, here] && [gone, here][1..] == [here] && [here][1..] == [];
    assert LoadAll(u, []) == u;
    assert LoadAll(t, [here]) == u;
    assert LoadAll(s, [gone, here]) == u;
  }

  lemma FirstRead(s: State, sp: Span)
    requires FindExact(s.arr, sp) < 0
    ensures var t := Loaded(s, Some([Region(sp, true)]), true);
            t.arr == [MapEntry(Region(sp, true), false)] && t.nread == s.nread + multiset{sp}
    ensures forall x :: x != sp ==> FindExact([MapEntry(Region(sp, true), false)], x) < 0
  {
    var t := Reload(s, Some([Region(sp, true)]));
    assert t.arr == [MapEntry(Region(sp, true), true)];
    assert ReadSpans(t.arr, 1, true) == ReadSpans(t.arr, 0, true) + multiset{sp};
  }

  lemma AtMostOneAt(m: seq<MapEntry>, addr: nat)
    requires Listed(Regions(m))
    ensures Monotone(m, e => EntryaddrCmp(addr, e))
    ensures forall i, j :: 0 <= i < j < |m| ==> EntryaddrCmp(addr, m[i]) != 0 || EntryaddrCmp(addr, m[j]) != 0
  {
    var r := Regions(m);
    assert forall i :: 0 <= i < |m| ==> r[i] == m[i].region;
    assert forall i, j :: 0 <= i < j < |m| ==> r[i].span.end <= r[j].span.start;
  }

  // ---------------------------------------------------------------------------
  // The code

  class ProcMap {
    var loaded: bool
    var arr: seq<MapEntry>
    ghost var nread: multiset<Span>

    ghost function St(): State
      reads this
    {
      State(loaded, arr, nread)
    }

    constructor ()
      ensures St() == INIT
    {
      loaded, arr, nread := false, [], multiset{};
    }

    /** `map_entry_find` */
    method EntryFind(addr: nat, size: nat) returns (k: int)
      requires Listed(Regions(arr))
      ensures k == FindExact(arr, Span(addr, addr + size))
    {
      hide FindExact;
      OneEntry(arr);
      AtMostOneAt(arr, addr);
      k := BSearch(arr, e => EntryaddrCmp(addr, e));
      if k >= 0 {
        if arr[k].region.span.start == addr && arr[k].region.span.end == addr + size {
          return;
        }
        k := -1;
      }
    }

    /** `map_proc_load`, given what `map_read` returns. */
    method Load(maps: Option<seq<Region>>) returns (ok: bool)
      requires Listed(Regions(arr)) && (maps.Some? ==> Listed(maps.value))
      modifies this`loaded, this`arr
      ensures ok == (maps.Some? && maps.value != []) && St() == Reload(old(St()), maps)
      ensures if ok then loaded else St() == old(St())
    {
      if maps.None? || maps.value == [] {
        return false;
      }
      var lines := Fresh(maps.value);
      if !loaded {
        loaded, arr := true, lines;
        return true;
      }
      var m := lines;
      var i := 0;
      while i < |m|
        invariant 0 <= i <= |m| == |maps.value| && arr == old(arr) && loaded
        invariant forall j :: 0 <= j < |m| ==> m[j] == if j < i then Carried(arr, maps.value[j]) else lines[j]
      {
        assert lines[i].region == Regions(lines)[i] == maps.value[i];
        var sp := m[i].region.span;
        var k := EntryFind(sp.start, sp.end - sp.start);
        m := m[i := m[i].(needResolve := if k < 0 then true else arr[k].needResolve)];
        i := i + 1;
      }
      arr := m;
      assert m == Carry(old(arr), maps.value);
      return true;
    }

    /** `sym_load` */
    method SymLoad(maps: Option<seq<Region>>, func: bool) returns (ok: bool)
      requires Listed(Regions(arr)) && (maps.Some? ==> Listed(maps.value))
      modifies this
      ensures ok == (maps.Some? && maps.value != []) && St() == Loaded(old(St()), maps, func)
    {
      hide Listed, Regions, Reload, ReadAll, ReadSpans;
      ok := Load(maps);
      if ok {
        ReadPass(func);
      }
    }

    /** The loop of `sym_load` over the entries. */
    method ReadPass(func: bool)
      modifies this`arr, this`nread
      ensures arr == ReadAll(old(arr), func) && nread == old(nread) + ReadSpans(old(arr), |old(arr)|, func)
    {
      ghost var m := arr;
      var i := 0;
      while i < |arr|
        invariant 0 <= i <= |arr| == |m|
        invariant forall j :: 0 <= j < |arr| ==> arr[j] == if j < i then Read(m[j], func) else m[j]
        invariant nread == old(nread) + ReadSpans(m, i, func)
      {
        if arr[i].needResolve && arr[i].region.exec && func {
          nread := nread + multiset{arr[i].region.span};
          arr := arr[i := arr[i].(needResolve := false)];
        }
        i := i + 1;
      }
    }
  }
}
