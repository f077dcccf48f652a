/**
 The list of call chains: chains that match are counted together, and the list is sorted
 by how often each was seen, by moving nodes from one doubly linked list to another.
 */
module CallChain {
  import opened Basics
  import opened StableSort
  import opened Symbols

  class Chain {
    const entries: seq<Entry>
    var naccess: nat
    var prev: Chain?
    var next: Chain?

    constructor (entries: seq<Entry>)
      ensures this.entries == entries && naccess == 0 && prev == null && next == null
    {
      this.entries := entries;
      naccess := 0;
      prev, next := null, null;
    }
  }

  /** The k-th node's links agree with its neighbours in `s`. */
  ghost predicate LinkedAt(s: seq<Chain>, k: int)
    requires 0 <= k < |s|
    reads s`prev, s`next
  {
    && s[k].prev == (if k == 0 then null else s[k - 1])
    && s[k].next == (if k + 1 < |s| then s[k + 1] else null)
  }

  ghost predicate Linked(s: seq<Chain>)
    reads s`prev, s`next
  {
    forall k :: 0 <= k < |s| ==> LinkedAt(s, k)
  }

  /** Links that nobody touched still agree. */
  twostate lemma LinksKept(s: seq<Chain>)
    requires old(Linked(s)) && forall k :: 0 <= k < |s| ==> s[k].prev == old(s[k].prev) && s[k].next == old(s[k].next)
    ensures Linked(s)
  {
    assert forall k :: 0 <= k < |s| ==> old(LinkedAt(s, k));
  }

  /** A chain's entries and how often it was seen after the first time. */
  datatype Tally = Tally(entries: seq<Entry>, naccess: nat)

  ghost function Tallies(s: seq<Chain>): (t: seq<Tally>)
    reads s`naccess
    ensures |t| == |s| && forall i :: 0 <= i < |s| ==> t[i] == Tally(s[i].entries, s[i].naccess)
  {
    if s == [] then [] else Tallies(s[..|s| - 1]) + [Tally(s[|s| - 1].entries, s[|s| - 1].naccess)]
  }

  ghost function Items(s: seq<Chain>): (t: seq<Item<Chain>>)
    reads s`naccess
    ensures |t| == |s| && forall i :: 0 <= i < |s| ==> t[i] == Item(s[i], s[i].naccess)
  {
    if s == [] then [] else Items(s[..|s| - 1]) + [Item(s[|s| - 1], s[|s| - 1].naccess)]
  }

  // ---------------------------------------------------------------------------
  // Counting, on the list's contents

  /** The first chain that matches the list of addresses, or -1. */
  function FindMatch(t: seq<Tally>, ips: seq<U64>): (i: int)
    ensures -1 <= i < |t|
    ensures i >= 0 ==> IpsExist(t[i].entries, ips)
    ensures forall k :: 0 <= k < (if i < 0 then |t| else i) ==> !IpsExist(t[k].entries, ips)
  {
    if t == [] then -1
    else
      var i := FindMatch(t[..|t| - 1], ips);
      assert forall k :: 0 <= k < |t| - 1 ==> t[..|t| - 1][k] == t[k];
      if i >= 0 then i else if IpsExist(t[|t| - 1].entries, ips) then |t| - 1 else -1
  }

  /** `sym_callchain_add`, where `built` is the chain it makes if none matches. */
  function AddTo(t: seq<Tally>, ips: seq<U64>, built: seq<Entry>): (r: seq<Tally>)
    ensures |r| == |t| + if FindMatch(t, ips) < 0 then 1 else 0
  {
    var i := FindMatch(t, ips);
    if i < 0 then t + [Tally(built, 0)] else t[i := t[i].(naccess := t[i].naccess + 1)]
  }

  function Sum(t: seq<Tally>): nat {
    if t == [] then 0 else Sum(t[..|t| - 1]) + t[|t| - 1].naccess
  }

  lemma {:induction false} SumUpdate(t: seq<Tally>, i: nat, n: nat)
    requires i < |t|
    ensures Sum(t[i := t[i].(naccess := n)]) == Sum(t) - t[i].naccess + n
  {
    var k := |t| - 1;
    var r := t[i := t[i].(naccess := n)];
    if i < k {
      assert r[..k] == t[..k][i := t[..k][i].(naccess := n)];
      SumUpdate(t[..k], i, n);
    } else {
      assert r[..k] == t[..k];
    }
  }

  /** Every add raises the number of chains plus their counts by exactly one. */
  lemma AddCounts(t: seq<Tally>, ips: seq<U64>, built: seq<Entry>)
    ensures var r := AddTo(t, ips, built); |r| + Sum(r) == |t| + Sum(t) + 1
  {
    var i := FindMatch(t, ips);
    if i < 0 {
      assert (t + [Tally(built, 0)])[..|t|] == t;
    } else {
      SumUpdate(t, i, t[i].naccess + 1);
    }
  }

  /** The k-th chain is the first that matches. */
  predicate IsFirst(t: seq<Tally>, ips: seq<U64>, k: nat) {
    && k < |t| && IpsExist(t[k].entries, ips)
    && forall j :: 0 <= j < k ==> !IpsExist(t[j].entries, ips)
  }

  /** An add counts the first chain that matches and no other; if none does, it appends a
      chain with a count of zero. */
  lemma AddsToFirst(t: seq<Tally>, ips: seq<U64>, built: seq<Entry>)
    ensures var r := AddTo(t, ips, built);
            && (forall k :: 0 <= k < |t| ==>
                  && r[k].entries == t[k].entries
                  && r[k].naccess == t[k].naccess + if IsFirst(t, ips, k) then 1 else 0)
            && if exists k :: IsFirst(t, ips, k) then |r| == |t| else r == t + [Tally(built, 0)]
  {
    var i := FindMatch(t, ips);
    assert i >= 0 ==> IsFirst(t, ips, i);
  }

  /** One sampled call chain: its addresses, and the chain that would be built. */
  datatype Sampled = Sampled(ips: seq<U64>, built: seq<Entry>)

  function AddAll(t: seq<Tally>, samples: seq<Sampled>): seq<Tally>
    decreases samples
  {
    if samples == [] then t else AddAll(AddTo(t, samples[0].ips, samples[0].built), samples[1..])
  }

  lemma {:induction false} AddAllCounts(t: seq<Tally>, samples: seq<Sampled>)
    ensures var r := AddAll(t, samples); |r| + Sum(r) == |t| + Sum(t) + |samples|
    decreases samples
  {
    if samples != [] {
      AddCounts(t, samples[0].ips, samples[0].built);
      AddAllCounts(AddTo(t, samples[0].ips, samples[0].built), samples[1..]);
    }
  }

  /** Chains stay where they are and keep their entries, whatever is added. */
  lemma {:induction false} AddAllKeeps(t: seq<Tally>, samples: seq<Sampled>)
    ensures var r := AddAll(t, samples); |t| <= |r| && forall i :: 0 <= i < |t| ==> r[i].entries == t[i].entries
    decreases samples
  {
    if samples != [] {
      AddAllKeeps(AddTo(t, samples[0].ips, samples[0].built), samples[1..]);
    }
  }

  /** For how many of the samples chain k of the list is the first that matches. */
  function Firsts(t: seq<Tally>, samples: seq<Sampled>, k: nat): nat
    decreases samples
  {
    if samples == [] then 0
    else (if IsFirst(t, samples[0].ips, k) then 1 else 0) + Firsts(t, samples[1..], k)
  }

  lemma SameFirst(t: seq<Tally>, r: seq<Tally>, ips: seq<U64>, k: nat)
    requires k < |t| <= |r| && forall i :: 0 <= i < |t| ==> r[i].entries == t[i].entries
    ensures IsFirst(r, ips, k) <==> IsFirst(t, ips, k)
  {
  }

  /** Over any run a chain's count grows by the number of adds for which it was the first
      match in the list. */
  lemma {:induction false} CountsFirsts(t: seq<Tally>, samples: seq<Sampled>, k: nat)
    requires k < |t|
    ensures var r := AddAll(t, samples); k < |r| && r[k].naccess == t[k].naccess + Firsts(r, samples, k)
    decreases samples
  {
    hide IsFirst, IpsExist, AddTo;
    if samples != [] {
      var s := samples[0];
      var u := AddTo(t, s.ips, s.built);
      AddsToFirst(t, s.ips, s.built);
      CountsFirsts(u, samples[1..], k);
      AddAllKeeps(u, samples[1..]);
      SameFirst(t, AddAll(t, samples), s.ips, k);
    }
  }

  /** A chain made during a run in which no entry wraps has been counted once less than it
      was the first match: the add that made it does not count. */
  lemma {:induction false} NewCountsFirsts(sym: Sym, t: seq<Tally>, samples: seq<Sampled>, k: nat)
    requires AllSized(sym) && forall s :: s in samples ==> AllBuilt(sym, s.ips, s.built) && NoWrap(s.built)
    requires |t| <= k < |AddAll(t, samples)|
    ensures var r := AddAll(t, samples); r[k].naccess + 1 == Firsts(r, samples, k)
    decreases samples
  {
    hide IsFirst, IpsExist, AddTo, AllBuilt, NoWrap, AllSized;
    var s := samples[0];
    var u, r := AddTo(t, s.ips, s.built), AddAll(t, samples);
    AddsToFirst(t, s.ips, s.built);
    AddAllKeeps(u, samples[1..]);
    MatchesNow(sym, t, s, r);
    if |u| > k {
      CountsFirsts(u, samples[1..], k);
    } else {
      NewCountsFirsts(sym, u, samples[1..], k);
    }
  }

  /** Right after an add the first match is within the list as it is then. */
  lemma MatchesNow(sym: Sym, t: seq<Tally>, s: Sampled, r: seq<Tally>)
    requires AllSized(sym) && AllBuilt(sym, s.ips, s.built) && NoWrap(s.built)
    requires var u := AddTo(t, s.ips, s.built); |u| <= |r| && forall i :: 0 <= i < |u| ==> r[i].entries == u[i].entries
    ensures var u := AddTo(t, s.ips, s.built);
            && (|u| > |t| ==> IsFirst(r, s.ips, |t|))
            && forall k :: |u| <= k < |r| ==> !IsFirst(r, s.ips, k)
  {
    OwnMatchIff(sym, s.ips, s.built);
    var i := FindMatch(t, s.ips);
    assert i < 0 ==> r[|t|].entries == s.built;
    assert i >= 0 ==> r[i].entries == t[i].entries;
    assert IpsExist(r[if i < 0 then |t| else i].entries, s.ips);
    hide AllBuilt, NoWrap, AllSized, IpsExist;
  }

  /** An address list seen again makes no second chain, whatever was added in between,
      as long as no entry of its chain wraps. */
  lemma RepeatAddsNone(sym: Sym, t: seq<Tally>, s: Sampled, between: seq<Sampled>)
    requires AllSized(sym) && AllBuilt(sym, s.ips, s.built) && NoWrap(s.built)
    ensures var r := AddAll(AddTo(t, s.ips, s.built), between); |AddTo(r, s.ips, s.built)| == |r|
  {
    var u := AddTo(t, s.ips, s.built);
    var r := AddAll(u, between);
    AddAllKeeps(u, between);
    OwnMatchIff(sym, s.ips, s.built);
    var i := if FindMatch(t, s.ips) < 0 then |t| else FindMatch(t, s.ips);
    assert u[i].entries == r[i].entries;
  }

  /** Seen again at once, it makes a second chain exactly if an entry wraps. */
  lemma RepeatIff(sym: Sym, t: seq<Tally>, s: Sampled)
    requires AllSized(sym) && AllBuilt(sym, s.ips, s.built) && FindMatch(t, s.ips) < 0
    ensures var r := AddTo(t, s.ips, s.built); |AddTo(r, s.ips, s.built)| == |r| <==> NoWrap(s.built)
  {
    var r := AddTo(t, s.ips, s.built);
    OwnMatchIff(sym, s.ips, s.built);
    assert r[|t|].entries == s.built;
    assert forall k :: 0 <= k < |t| ==> r[k] == t[k];
  }

  /** Room above every symbol and every address is enough for that. */
  lemma RoomAddsNone(sym: Sym, t: seq<Tally>, s: Sampled, between: seq<Sampled>)
    requires AllSized(sym) && AllBuilt(sym, s.ips, s.built) && PlacesFit(sym)
    requires forall i :: 0 <= i < |s.ips| ==> s.ips[i] + 8 < TWO64
    ensures var r := AddAll(AddTo(t, s.ips, s.built), between); |AddTo(r, s.ips, s.built)| == |r|
  {
    PlacesNoWrap(sym, s.ips, s.built);
    RepeatAddsNone(sym, t, s, between);
  }

  const WRAPPING := Sym(true, Binary(16, [SymItem("f", 0, TWO64 - 1)]), [])
  const WRAPPED := Sampled([16], [Entry(16, TWO64 - 1)])

  /** A symbol whose place wraps: the same address is added twice and makes two chains. */
  lemma WrapAddsTwo()
    ensures AllSized(WRAPPING) && AllBuilt(WRAPPING, WRAPPED.ips, WRAPPED.built) && !NoWrap(WRAPPED.built)
    ensures |AddTo(AddTo([], WRAPPED.ips, WRAPPED.built), WRAPPED.ips, WRAPPED.built)| == 2
  {
    var b := Binaries(WRAPPING)[0];
    assert Contains(b.items[0], Sub64(16, b.load));
    assert BuiltFrom(b, 16, WRAPPED.built[0]);
    assert BuiltFromKth(WRAPPING, 16, WRAPPED.built[0], 0);
    assert AllBuilt(WRAPPING, WRAPPED.ips, WRAPPED.built);
    assert !NoWrap(WRAPPED.built) by {
      assert WRAPPED.built[0].addr + WRAPPED.built[0].size >= TWO64;
    }
    RepeatIff(WRAPPING, [], WRAPPED);
  }

  // ---------------------------------------------------------------------------
  // The code

  class ChainList {
    var head: Chain?
    var tail: Chain?
    var num: int
    ghost var nodes: seq<Chain>

    ghost predicate Valid()
      reads this, nodes`prev, nodes`next
    {
      && Distinct(nodes) && Linked(nodes) && num == |nodes|
      && head == (if nodes == [] then null else nodes[0])
      && tail == (if nodes == [] then null else nodes[|nodes| - 1])
    }

    constructor ()
      ensures Valid() && nodes == []
    {
      head, tail, num, nodes := null, null, 0, [];
    }

    /** `chainlist_attach_tail` */
    method AttachTail(chain: Chain)
      requires Valid() && chain !in nodes
      modifies this`head, this`tail, this`num, this`nodes, chain`prev, chain`next, nodes`next
      ensures Valid() && nodes == old(nodes) + [chain]
    {
      var was := tail;
      ghost var s := nodes;
      chain.next := null;
      chain.prev := was;
      if was != null {
        was.next := chain;
      } else {
        head := chain;
      }
      tail := chain;
      num := num + 1;
      nodes := nodes + [chain];
      forall k | 0 <= k < |nodes|
        ensures LinkedAt(nodes, k)
      {
        if k < |s| {
          assert old(LinkedAt(s, k));
          assert nodes[k] == s[k];
        }
      }
    }

    /** `chainlist_detach`, of the k-th node */
    method Detach(chain: Chain, ghost k: nat)
      requires Valid() && k < |nodes| && nodes[k] == chain
      modifies this`head, this`tail, this`num, this`nodes, nodes`prev, nodes`next
      ensures Valid() && nodes == Without(old(nodes), k)
    {
      ghost var s := nodes;
      assert forall i, j :: 0 <= i < j < |s| ==> s[i] != s[j];
      assert LinkedAt(s, k);
      assert k > 0 ==> LinkedAt(s, k - 1);
      assert k + 1 < |s| ==> LinkedAt(s, k + 1);
      var prev, next := chain.prev, chain.next;
      if prev != null {
        prev.next := next;
      } else {
        head := next;
      }
      if next != null {
        next.prev := prev;
      } else {
        tail := prev;
      }
      chain.prev := null;
      chain.next := null;
      num := num - 1;
      nodes := Without(s, k);
      forall i | 0 <= i < |nodes|
        ensures LinkedAt(nodes, i)
      {
        ghost var j := if i < k then i else i + 1;
        assert nodes[i] == s[j];
        assert old(LinkedAt(s, j));
        assert j > 0 ==> old(LinkedAt(s, j - 1));
      }
    }

    /** `chain_find` */
    method ChainFind(ips: seq<U64>) returns (chain: Chain?, ghost k: int)
      requires Valid()
      ensures k == FindMatch(Tallies(nodes), ips)
      ensures chain == if k < 0 then null else nodes[k]
    {
      hide FindMatch, IpsExist, Tallies;
      chain := head;
      k := 0;
      while chain != null
        invariant 0 <= k <= |nodes| && chain == (if k < |nodes| then nodes[k] else null)
        invariant forall i :: 0 <= i < k ==> !IpsExist(nodes[i].entries, ips)
        decreases |nodes| - k
      {
        if IpsExist(chain.entries, ips) {
          return;
        }
        assert LinkedAt(nodes, k);
        chain := chain.next;
        k := k + 1;
      }
      k := -1;
    }

    /** The k-th chain was seen once more. */
    method Count(chain: Chain, ghost k: nat)
      requires Valid() && k < |nodes| && nodes[k] == chain
      modifies chain`naccess
      ensures var t := old(Tallies(nodes)); Tallies(nodes) == t[k := t[k].(naccess := t[k].naccess + 1)]
      ensures Valid()
    {
      hide Linked, Tallies;
      chain.naccess := chain.naccess + 1;
    }

    /** A chain seen for the first time. */
    method Append(entries: seq<Entry>)
      requires Valid()
      modifies this`head, this`tail, this`num, this`nodes, nodes`next
      ensures Valid() && Tallies(nodes) == old(Tallies(nodes)) + [Tally(entries, 0)]
      ensures |nodes| == |old(nodes)| + 1 && nodes[..|nodes| - 1] == old(nodes) && fresh(nodes[|nodes| - 1])
    {
      hide Linked, Tallies, Distinct;
      var chain := new Chain(entries);
      AttachTail(chain);
    }

    /** `sym_callchain_add` */
    method Add(sym: Sym, ips: seq<U64>) returns (ghost built: seq<Entry>)
      requires Valid() && AllSized(sym)
      modifies this`head, this`tail, this`num, this`nodes, nodes`next, nodes`naccess
      ensures Valid() && (FindMatch(old(Tallies(nodes)), ips) < 0 ==> AllBuilt(sym, ips, built))
      ensures Tallies(nodes) == AddTo(old(Tallies(nodes)), ips, built)
      ensures old(nodes) <= nodes
      ensures forall k :: 0 <= k < |old(nodes)| ==>
                nodes[k].naccess == old(nodes[k].naccess) + if FindMatch(old(Tallies(nodes)), ips) == k then 1 else 0
    {
      hide FindMatch, AllBuilt, AllSized, Tallies, Valid;
      var chain, k := ChainFind(ips);
      built := [];
      if chain != null {
        Count(chain, k);
        return;
      }
      var entries := ChainEntries(sym, ips);
      built := entries;
      Append(entries);
    }

    /** `max_access_chain` */
    method MaxAccessChain() returns (found: Chain?, ghost m: nat)
      requires Valid()
      ensures nodes == [] ==> found == null
      ensures nodes != [] ==> m == FirstMax(Keys(Items(nodes))) && found == nodes[m]
    {
      hide FirstMax, Items;
      var p := head;
      found, m := null, 0;
      var nmax: int := -1;
      ghost var k := 0;
      while p != null
        invariant 0 <= k <= |nodes| && p == (if k < |nodes| then nodes[k] else null)
        invariant m <= k && (k == 0 ==> found == null && nmax == -1)
        invariant k > 0 ==> m < k && found == nodes[m] && nmax == nodes[m].naccess
        invariant forall i :: 0 <= i < k ==> nodes[i].naccess <= nmax
        invariant forall i :: 0 <= i < m ==> nodes[i].naccess < nmax
        decreases |nodes| - k
      {
        if p.naccess > nmax {
          nmax := p.naccess;
          found, m := p, k;
        }
        assert LinkedAt(nodes, k);
        p := p.next;
        k := k + 1;
      }
      if nodes != [] {
        FirstMaxUnique(Keys(Items(nodes)), m);
      }
    }

    /** One round of the sort: the first most-seen chain goes to the end of `sorted`. */
    method MoveMax(sorted: ChainList, ghost all: seq<Chain>)
      requires Valid() && sorted.Valid() && sorted != this && nodes != [] && Split(nodes, sorted.nodes, all)
      modifies this`head, this`tail, this`num, this`nodes,
        sorted`head, sorted`tail, sorted`num, sorted`nodes, all`prev, all`next
      ensures Valid() && sorted.Valid() && Split(nodes, sorted.nodes, all)
      ensures |nodes| == |old(nodes)| - 1
      ensures Items(sorted.nodes) + Selected(Items(nodes)) == old(Items(sorted.nodes) + Selected(Items(nodes)))
    {
      hide FirstMax, Keys, Items, Linked, Distinct, Without, Selected;
      var p, m := MaxAccessChain();
      ghost var s, t := nodes, sorted.nodes;
      Round(s, t, m);
      assert p in s;
      Detach(p, m);
      WithoutParts(s, m);
      LinksKept(t);
      label detached:
      sorted.AttachTail(p);
      LinksKept@detached(nodes);
    }

    /** `sym_callchain_resort` */
    method Resort()
      requires Valid()
      modifies this`head, this`tail, this`num, this`nodes, nodes`prev, nodes`next
      ensures Valid() && Items(nodes) == Selected(old(Items(nodes)))
    {
      hide Linked, Items, Selected, Without, Distinct, Split;
      ghost var all := nodes;
      var sorted := new ChainList();
      NoItems();
      SplitStart(nodes);
      ghost var want := Selected(Items(nodes));
      while num > 0
        invariant Valid() && sorted.Valid() && fresh(sorted) && sorted != this && Split(nodes, sorted.nodes, all)
        invariant Items(sorted.nodes) + Selected(Items(nodes)) == want
        decreases num
      {
        MoveMax(sorted, all);
      }
      head, tail, num, nodes := sorted.head, sorted.tail, sorted.num, sorted.nodes;
      NoItems();
    }
  }

  /** Two lists that share no node, all of them from `all`. */
  predicate Split(s: seq<Chain>, t: seq<Chain>, all: seq<Chain>) {
    && (forall k :: 0 <= k < |s| ==> s[k] in all)
    && (forall k :: 0 <= k < |t| ==> t[k] in all && t[k] !in s)
  }

  lemma SplitStart(s: seq<Chain>)
    ensures Split(s, [], s)
  {
  }

  lemma WithoutParts(s: seq<Chain>, m: nat)
    requires m < |s| && Distinct(s)
    ensures forall k :: 0 <= k < |Without(s, m)| ==> Without(s, m)[k] in s && Without(s, m)[k] != s[m]
  {
  }

  lemma NoItems()
    ensures Items([]) == [] && Selected(Items([])) == []
  {
  }

  lemma ItemsWithout(s: seq<Chain>, m: nat)
    requires m < |s|
    ensures Items(Without(s, m)) == Without(Items(s), m)
  {
    hide Items;
    var a, b := Items(Without(s, m)), Without(Items(s), m);
    forall i | 0 <= i < |a|
      ensures a[i] == b[i]
    {
      assert Without(s, m)[i] == s[if i < m then i else i + 1];
    }
  }

  /** What a round does to the two lists leaves the sort's outcome the same. */
  lemma Round(s: seq<Chain>, t: seq<Chain>, m: nat)
    requires s != [] && m == FirstMax(Keys(Items(s)))
    ensures Items(t + [s[m]]) + Selected(Items(Without(s, m))) == Items(t) + Selected(Items(s))
  {
    hide Items, FirstMax, Selected, Without;
    ItemsWithout(s, m);
    SelectedIs(Items(s));
    assert Items(t + [s[m]]) == Items(t) + [Items(s)[m]];
  }
}
