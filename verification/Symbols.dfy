/**
 Resolving an address to the symbols that contain it, and the call-chain entries built
 from a list of addresses. Addresses are 64-bit and wrap.
 */
module Symbols {
  import opened Basics
  import opened Libc

  type U64 = x: int | 0 <= x < TWO64 witness 0

  /** 64-bit addition and subtraction. */
  function Add64(a: U64, b: U64): U64 {
    if a + b < TWO64 then a + b else a + b - TWO64
  }

  function Sub64(a: U64, b: U64): U64 {
    if a >= b then a - b else a - b + TWO64
  }

  datatype SymItem = SymItem(name: string, off: U64, size: U64)
  datatype Binary = Binary(load: U64, items: seq<SymItem>)
  datatype Sym = Sym(loaded: bool, image: Binary, libs: seq<Binary>)

  /** Reading a binary skips symbols of size zero. */
  predicate Sized(items: seq<SymItem>) {
    forall i :: 0 <= i < |items| ==> items[i].size > 0
  }

  predicate AllSized(sym: Sym) {
    Sized(sym.image.items) && forall i :: 0 <= i < |sym.libs| ==> Sized(sym.libs[i].items)
  }

  function OffCmp(off: U64, item: SymItem): int {
    if off >= Add64(item.off, item.size) then 1 else if off < item.off then -1 else 0
  }

  predicate Contains(item: SymItem, off: U64) {
    item.off <= off < item.off + item.size
  }

  lemma OffCmpContains(off: U64, item: SymItem)
    ensures OffCmp(off, item) == 0 <==> Contains(item, off) && item.off + item.size < TWO64
  {
  }

  /** Symbols in order, none wrapping, those at different offsets apart. */
  predicate Tidy(items: seq<SymItem>) {
    && (forall i :: 0 <= i < |items| ==> items[i].size > 0 && items[i].off + items[i].size < TWO64)
    && forall i, j :: 0 <= i < j < |items| ==> items[i].off == items[j].off || items[i].off + items[i].size <= items[j].off
  }

  /** Tidy, and symbols at one offset have one size. */
  predicate Regular(items: seq<SymItem>) {
    Tidy(items) && forall i, j :: 0 <= i < j < |items| && items[i].off == items[j].off ==> items[i].size == items[j].size
  }

  predicate Covered(items: seq<SymItem>, off: U64) {
    exists i :: 0 <= i < |items| && Contains(items[i], off)
  }

  predicate Starts(items: seq<SymItem>, off: U64) {
    exists i :: 0 <= i < |items| && items[i].off == off
  }

  /** `resolve`, which returns a run of neighbouring symbols, none for NULL: each contains
      the offset. A regular table yields some exactly if one contains it, a tidy one where
      symbols start yields all of these. */
  method Resolve(items: seq<SymItem>, off: U64) returns (start: nat, num: nat)
    requires Sized(items)
    ensures start + num <= |items| && forall i :: start <= i < start + num ==> Contains(items[i], off)
    ensures Regular(items) ==> (num > 0 <==> Covered(items, off))
    ensures Tidy(items) && Starts(items, off) ==> forall i :: 0 <= i < |items| ==> (start <= i < start + num <==> items[i].off == off)
  {
    hide Tidy, Regular, OffCmp, Contains;
    var k := BSearch(items, item => OffCmp(off, item));
    if Tidy(items) && Starts(items, off) {
      TidyFound(items, off);
    }
    if Regular(items) {
      RegularFound(items, off);
    }
    if k < 0 {
      return 0, 0;
    }
    OffCmpContains(off, items[k]);
    start, num := Widen(items, off, k);
    if Tidy(items) && Starts(items, off) {
      AllTogether(items, off, start, num, k);
    }
  }

  /** The two loops of `resolve`, which collect the neighbours that start at the offset. */
  method Widen(items: seq<SymItem>, off: U64, k: nat) returns (start: nat, num: nat)
    requires k < |items| && Contains(items[k], off) && Sized(items)
    ensures start <= k < start + num <= |items|
    ensures forall i :: start <= i < start + num && i != k ==> items[i].off == off
    ensures forall i :: start <= i < start + num ==> Contains(items[i], off)
    ensures (start > 0 ==> items[start - 1].off != off) && (start + num < |items| ==> items[start + num].off != off)
  {
    num := 1;
    start := k;
    var i := k - 1;
    while i >= 0
      invariant -1 <= i < start <= k && i == start - 1 && start + num == k + 1
      invariant forall j :: start <= j < k ==> items[j].off == off
    {
      if items[i].off == off {
        num := num + 1;
        start := i;
        i := i - 1;
      } else {
        break;
      }
    }
    i := k + 1;
    while i < |items|
      invariant k < i <= |items| && start + num == i
      invariant forall j :: start <= j < i && j != k ==> items[j].off == off
    {
      if items[i].off == off {
        num := num + 1;
        i := i + 1;
      } else {
        break;
      }
    }
  }

  lemma AllTogether(items: seq<SymItem>, off: U64, start: nat, num: nat, k: nat)
    requires Tidy(items) && start <= k < start + num <= |items| && items[k].off == off
    requires forall i :: start <= i < start + num && i != k ==> items[i].off == off
    requires (start > 0 ==> items[start - 1].off != off) && (start + num < |items| ==> items[start + num].off != off)
    ensures forall i :: 0 <= i < |items| ==> (start <= i < start + num <==> items[i].off == off)
  {
    assert forall i, j :: 0 <= i < j < |items| ==> items[i].off <= items[j].off;
  }

  /** A regular table is ordered for every offset, and the search looks for the symbols
      containing it. */
  lemma RegularFound(items: seq<SymItem>, off: U64)
    requires Regular(items)
    ensures Monotone(items, item => OffCmp(off, item))
    ensures forall i :: 0 <= i < |items| ==> (OffCmp(off, items[i]) == 0 <==> Contains(items[i], off))
  {
    forall i | 0 <= i < |items|
      ensures OffCmp(off, items[i]) == if off >= items[i].off + items[i].size then 1 else if off < items[i].off then -1 else 0
    {
      OffCmpContains(off, items[i]);
    }
  }

  /** In a tidy table the search is ordered, and only symbols starting there contain an
      offset where one starts. */
  lemma TidyFound(items: seq<SymItem>, off: U64)
    requires Tidy(items) && Starts(items, off)
    ensures Monotone(items, item => OffCmp(off, item))
    ensures forall i :: 0 <= i < |items| ==> (OffCmp(off, items[i]) == 0 <==> items[i].off == off)
  {
    var s :| 0 <= s < |items| && items[s].off == off;
    forall i | 0 <= i < |items|
      ensures OffCmp(off, items[i]) == if items[i].off < off then 1 else if items[i].off == off then 0 else -1
    {
      OffCmpContains(off, items[i]);
    }
  }

  // ---------------------------------------------------------------------------

  datatype Entry = Entry(addr: U64, size: U64)

  function Binaries(sym: Sym): (b: seq<Binary>)
    ensures |b| == 1 + |sym.libs|
  {
    [sym.image] + sym.libs
  }

  /** The binary has no symbol for the address, as far as its search can tell. */
  predicate Misses(b: Binary, ip: U64) {
    Regular(b.items) ==> !Covered(b.items, Sub64(ip, b.load))
  }

  /** The place in memory of a symbol of the k-th binary, those before it missing; or the
      bare address, if nothing is loaded or all miss. */
  ghost predicate Built(sym: Sym, ip: U64, e: Entry) {
    || (e == Entry(ip, 8) && (sym.loaded ==> forall j :: 0 <= j <= |sym.libs| ==> Misses(Binaries(sym)[j], ip)))
    || (sym.loaded && exists k :: 0 <= k <= |sym.libs| && BuiltFromKth(sym, ip, e, k))
  }

  ghost predicate BuiltFromKth(sym: Sym, ip: U64, e: Entry, k: nat) {
    k <= |sym.libs| && BuiltFrom(Binaries(sym)[k], ip, e) && forall j :: 0 <= j < k ==> Misses(Binaries(sym)[j], ip)
  }

  ghost predicate BuiltFrom(b: Binary, ip: U64, e: Entry) {
    exists k :: 0 <= k < |b.items| && Contains(b.items[k], Sub64(ip, b.load)) &&
      e == Entry(Add64(b.load, b.items[k].off), b.items[k].size)
  }

  predicate IpHit(ip: U64, e: Entry) {
    ip >= e.addr && ip < Add64(e.addr, e.size)
  }

  lemma BuiltFromHit(b: Binary, ip: U64, e: Entry)
    requires Sized(b.items) && BuiltFrom(b, ip, e)
    ensures IpHit(ip, e) <==> e.addr + e.size < TWO64
  {
    var off := Sub64(ip, b.load);
    var k :| 0 <= k < |b.items| && Contains(b.items[k], off) && e == Entry(Add64(b.load, b.items[k].off), b.items[k].size);
  }

  /** An entry matches the address it was built from if and only if its end does not
      wrap past 2^64. */
  lemma OwnHitIff(sym: Sym, ip: U64, e: Entry)
    requires AllSized(sym) && Built(sym, ip, e)
    ensures IpHit(ip, e) <==> e.addr + e.size < TWO64
  {
    hide BuiltFrom, Misses;
    if e != Entry(ip, 8) {
      var k :| 0 <= k <= |sym.libs| && BuiltFromKth(sym, ip, e, k);
      BuiltFromHit(Binaries(sym)[k], ip, e);
    }
  }

  /** Every symbol's place ends below 2^64. */
  predicate PlacesFit(sym: Sym) {
    forall k, i :: 0 <= k <= |sym.libs| && 0 <= i < |Binaries(sym)[k].items| ==> Fits(Binaries(sym)[k], i)
  }

  predicate Fits(b: Binary, i: nat)
    requires i < |b.items|
  {
    Add64(b.load, b.items[i].off) + b.items[i].size < TWO64
  }

  /** No entry wraps when the symbols' places and the addresses leave room. */
  lemma PlacesNoWrap(sym: Sym, ips: seq<U64>, entries: seq<Entry>)
    requires AllBuilt(sym, ips, entries) && PlacesFit(sym)
    requires forall i :: 0 <= i < |ips| ==> ips[i] + 8 < TWO64
    ensures NoWrap(entries)
  {
    forall i | 0 <= i < |entries|
      ensures entries[i].addr + entries[i].size < TWO64
    {
      var e := entries[i];
      assert Built(sym, ips[i], e);
      if e != Entry(ips[i], 8) {
        var k :| 0 <= k <= |sym.libs| && BuiltFromKth(sym, ips[i], e, k);
        var b := Binaries(sym)[k];
        var j :| 0 <= j < |b.items| && Contains(b.items[j], Sub64(ips[i], b.load)) && e == Entry(Add64(b.load, b.items[j].off), b.items[j].size);
        assert Fits(b, j);
      }
    }
  }

  predicate Plain(item: SymItem) {
    item.name == [] || item.name[0] != '_'
  }

  /** Symbol k is the choice at an offset: the first plain name starting there, or the
      last of all if none is plain. */
  predicate Chosen(items: seq<SymItem>, off: U64, k: nat) {
    && k < |items| && items[k].off == off
    && (forall i :: 0 <= i < k && items[i].off == off ==> !Plain(items[i]))
    && (Plain(items[k]) || forall i :: k < i < |items| ==> items[i].off != off)
  }

  /** `resolve_unique` on one binary's symbols: the first whose name does not start with
      an underscore, else the last. */
  method PickUnique(b: Binary, ip: U64) returns (r: Option<Entry>, k: nat)
    requires Sized(b.items)
    ensures r.Some? ==> BuiltFrom(b, ip, r.value) && k < |b.items| && r.value == Entry(Add64(b.load, b.items[k].off), b.items[k].size)
    ensures Regular(b.items) ==> (r.Some? <==> Covered(b.items, Sub64(ip, b.load)))
    ensures Tidy(b.items) && Starts(b.items, Sub64(ip, b.load)) ==> r.Some? && Chosen(b.items, Sub64(ip, b.load), k)
  {
    hide Regular, Covered;
    var start, num := Resolve(b.items, Sub64(ip, b.load));
    k := 0;
    if num == 0 {
      return None, k;
    }
    k := start;
    while k < start + num - 1 && !Plain(b.items[k])
      invariant start <= k < start + num && forall i :: start <= i < k ==> !Plain(b.items[i])
    {
      k := k + 1;
    }
    return Some(Entry(Add64(b.load, b.items[k].off), b.items[k].size)), k;
  }

  /** `sym_resolve`: the image first, then the libraries in order. */
  method ResolveUnique(sym: Sym, ip: U64) returns (r: Option<Entry>, ghost from: nat)
    requires AllSized(sym)
    ensures r.Some? ==> sym.loaded && BuiltFromKth(sym, ip, r.value, from)
    ensures r.None? && sym.loaded ==> forall j :: 0 <= j <= |sym.libs| ==> Misses(Binaries(sym)[j], ip)
  {
    hide BuiltFrom, Regular, Covered, Sized, Tidy, Starts, Chosen;
    from := 0;
    if !sym.loaded {
      return None, from;
    }
    var k;
    r, k := PickUnique(sym.image, ip);
    if r.Some? {
      return;
    }
    var i := 0;
    while i < |sym.libs|
      invariant 0 <= i <= |sym.libs| && r.None? && forall j :: 0 <= j <= i ==> Misses(Binaries(sym)[j], ip)
    {
      r, k := PickUnique(sym.libs[i], ip);
      from := i + 1;
      if r.Some? {
        return;
      }
      i := i + 1;
    }
  }

  ghost predicate AllBuilt(sym: Sym, ips: seq<U64>, entries: seq<Entry>) {
    |entries| == |ips| && forall i :: 0 <= i < |ips| ==> Built(sym, ips[i], entries[i])
  }

  /** `chain_alloc` */
  method ChainEntries(sym: Sym, ips: seq<U64>) returns (entries: seq<Entry>)
    requires AllSized(sym)
    ensures AllBuilt(sym, ips, entries)
  {
    hide Misses, AllSized;
    entries := [];
    while |entries| < |ips|
      invariant |entries| <= |ips| && AllBuilt(sym, ips[..|entries|], entries)
    {
      var ip := ips[|entries|];
      var r, from := ResolveUnique(sym, ip);
      entries := entries + [if r.None? then Entry(ip, 8) else r.value];
    }
    assert ips[..|ips|] == ips;
  }

  /** `ips_exist`: a chain matches any list its first entries contain. */
  predicate IpsExist(entries: seq<Entry>, ips: seq<U64>) {
    |ips| <= |entries| && forall i :: 0 <= i < |ips| ==> IpHit(ips[i], entries[i])
  }

  /** The address lies in the entry's place, and the place does not wrap. */
  predicate Within(ip: U64, e: Entry) {
    e.addr <= ip < e.addr + e.size < TWO64
  }

  /** Whatever the chain was built from, it matches exactly the lists whose addresses lie,
      one by one, in the places of its first entries. */
  lemma MatchIff(entries: seq<Entry>, ips: seq<U64>)
    ensures IpsExist(entries, ips) <==> |ips| <= |entries| && forall i :: 0 <= i < |ips| ==> Within(ips[i], entries[i])
  {
    forall i | 0 <= i < |ips| && i < |entries|
      ensures IpHit(ips[i], entries[i]) <==> Within(ips[i], entries[i])
    {
      HitIffWithin(ips[i], entries[i]);
    }
  }

  lemma HitIffWithin(ip: U64, e: Entry)
    ensures IpHit(ip, e) <==> Within(ip, e)
  {
  }

  predicate NoWrap(entries: seq<Entry>) {
    forall i :: 0 <= i < |entries| ==> entries[i].addr + entries[i].size < TWO64
  }

  /** A chain matches the list it was built from if and only if no entry wraps. */
  lemma OwnMatchIff(sym: Sym, ips: seq<U64>, entries: seq<Entry>)
    requires AllSized(sym) && AllBuilt(sym, ips, entries)
    ensures IpsExist(entries, ips) <==> NoWrap(entries)
  {
    forall i | 0 <= i < |ips|
      ensures IpHit(ips[i], entries[i]) <==> entries[i].addr + entries[i].size < TWO64
    {
      OwnHitIff(sym, ips[i], entries[i]);
    }
  }
}
