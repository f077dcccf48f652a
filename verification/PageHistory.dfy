/**
 The history of pages shown: a doubly linked list whose current page, between commands,
 is its last. Going on appends a page, going back drops one.
 */
module PageHistory {
  import opened Basics

  class Page {
    const cmd: int
    var prev: Page?
    var next: Page?
    ghost var frees: nat

    constructor (cmd: int)
      ensures this.cmd == cmd && prev == null && next == null && frees == 0
    {
      this.cmd := cmd;
      prev, next := null, null;
      frees := 0;
    }
  }

  /** The k-th page's links agree with its neighbours in `s`. */
  ghost predicate LinkedAt(s: seq<Page>, k: int)
    requires 0 <= k < |s|
    reads s`prev, s`next
  {
    && s[k].prev == (if k == 0 then null else s[k - 1])
    && s[k].next == (if k + 1 < |s| then s[k + 1] else null)
  }

  ghost predicate Linked(s: seq<Page>)
    reads s`prev, s`next
  {
    forall k :: 0 <= k < |s| ==> LinkedAt(s, k)
  }

  function Cmds(s: seq<Page>): (c: seq<int>)
    ensures |c| == |s| && forall i :: 0 <= i < |s| ==> c[i] == s[i].cmd
  {
    seq(|s|, i requires 0 <= i < |s| => s[i].cmd)
  }

  // ---------------------------------------------------------------------------
  // The history as a stack

  /** The commands shown, oldest first, and whether the last waits to be shown again. */
  datatype Stack = Stack(cmds: seq<int>, waits: bool)

  /** `sampled`: a refresh finds that sampling has been started, and leaves showing the
      page to the thread that gets the data. */
  datatype Command = Next(cmd: int, smpl: bool) | Back(smpl: bool) | Refresh(sampled: bool) | Home(cmd: int, smpl: bool) | Show

  function Do(s: Stack, c: Command): Stack {
    match c
    case Next(cmd, smpl) => Stack(s.cmds + [cmd], smpl)
    case Back(smpl) => if |s.cmds| < 2 then s else Stack(s.cmds[..|s.cmds| - 1], smpl)
    case Refresh(sampled) => s.(waits := sampled && s.cmds != [])
    case Home(cmd, smpl) => Stack([cmd], smpl)
    case Show => s.(waits := false)
  }

  function DoAll(s: Stack, cs: seq<Command>): Stack
    decreases cs
  {
    if cs == [] then s else DoAll(Do(s, cs[0]), cs[1..])
  }

  /** Going on by any pages and back as often shows again what was shown, unless there
      was nothing: the first page can not be left. */
  lemma {:induction false} BackAgainIff(s: Stack, on: seq<int>, smpl: bool)
    requires on != []
    ensures DoAll(s, Nexts(on, smpl) + Backs(|on|, smpl)).cmds == s.cmds <==> s.cmds != []
    ensures s.cmds == [] ==> DoAll(s, Nexts(on, smpl) + Backs(|on|, smpl)).cmds == on[..1]
  {
    NextsAppend(s, on, smpl, Backs(|on|, smpl));
    BacksDrop(Stack(s.cmds + on, smpl), |on|, smpl);
  }

  function Nexts(on: seq<int>, smpl: bool): seq<Command> {
    seq(|on|, i requires 0 <= i < |on| => Next(on[i], smpl))
  }

  function Backs(n: nat, smpl: bool): seq<Command> {
    seq(n, _ => Back(smpl))
  }

  lemma {:induction false} NextsAppend(s: Stack, on: seq<int>, smpl: bool, rest: seq<Command>)
    ensures DoAll(s, Nexts(on, smpl) + rest) == DoAll(if on == [] then s else Stack(s.cmds + on, smpl), rest)
    decreases on
  {
    if on == [] {
      assert Nexts(on, smpl) + rest == rest;
    } else {
      var t := Do(s, Next(on[0], smpl));
      NextsAppend(t, on[1..], smpl, rest);
      assert (Nexts(on, smpl) + rest)[0] == Next(on[0], smpl);
      assert (Nexts(on, smpl) + rest)[1..] == Nexts(on[1..], smpl) + rest;
      assert s.cmds + on == t.cmds + on[1..];
      assert on[1..] == [] ==> t.cmds == s.cmds + on;
    }
  }

  lemma {:induction false} BacksDrop(s: Stack, n: nat, smpl: bool)
    ensures DoAll(s, Backs(n, smpl)).cmds == if s.cmds == [] then [] else if n < |s.cmds| then s.cmds[..|s.cmds| - n] else s.cmds[..1]
    decreases n
  {
    if n > 0 {
      var t := Do(s, Back(smpl));
      BacksDrop(t, n - 1, smpl);
      assert Backs(n, smpl)[1..] == Backs(n - 1, smpl);
    }
  }

  // ---------------------------------------------------------------------------
  // Over whole runs

  lemma {:induction false} DoAllLast(s: Stack, cs: seq<Command>, c: Command)
    ensures DoAll(s, cs + [c]) == Do(DoAll(s, cs), c)
    decreases cs
  {
    if cs == [] {
      assert (cs + [c])[1..] == [];
    } else {
      assert (cs + [c])[0] == cs[0] && (cs + [c])[1..] == cs[1..] + [c];
      DoAllLast(Do(s, cs[0]), cs[1..], c);
    }
  }

  /** How many pages a run stacks on those it starts with; None if it goes back below
      them or restarts. */
  function Above(cs: seq<Command>, d: nat): Option<nat>
    decreases cs
  {
    if cs == [] then Some(d)
    else
      match cs[0]
      case Next(_, _) => Above(cs[1..], d + 1)
      case Back(_) => if d == 0 then None else Above(cs[1..], d - 1)
      case Home(_, _) => None
      case _ => Above(cs[1..], d)
  }

  /** A run that goes on, back and refreshes in any order, never back further than it
      started, leaves the history below untouched: if it goes back as often as on, the
      page shown is the one it started from. */
  lemma {:induction false} BalancedKeeps(s: Stack, cs: seq<Command>, d: nat)
    requires d < |s.cmds| && Above(cs, d).Some?
    ensures var t := DoAll(s, cs);
            |t.cmds| == |s.cmds| - d + Above(cs, d).value && s.cmds[..|s.cmds| - d] == t.cmds[..|s.cmds| - d]
    decreases cs
  {
    if cs != [] {
      var t := Do(s, cs[0]);
      var e := match cs[0] case Next(_, _) => d + 1 case Back(_) => d - 1 case _ => d;
      BalancedKeeps(t, cs[1..], e);
      assert s.cmds[..|s.cmds| - d] == t.cmds[..|s.cmds| - d];
    }
  }

  /** Going home is starting over: nothing before it matters. */
  lemma HomeForgets(s: Stack, cmd: int, smpl: bool, cs: seq<Command>)
    ensures DoAll(s, [Home(cmd, smpl)] + cs) == DoAll(Stack([], false), [Next(cmd, smpl)] + cs)
  {
    assert ([Home(cmd, smpl)] + cs)[1..] == cs;
    assert ([Next(cmd, smpl)] + cs)[1..] == cs;
    assert [] + [cmd] == [cmd];
  }

  /** The command starts sampling for the page it leads to. */
  predicate Samples(c: Command) {
    match c
    case Next(_, smpl) => smpl
    case Back(smpl) => smpl
    case Refresh(sampled) => sampled
    case Home(_, smpl) => smpl
    case Show => false
  }

  /** The command leads to a page: going back from the first one does not. */
  predicate Leads(s: Stack, c: Command) {
    match c
    case Back(_) => |s.cmds| > 1
    case Refresh(_) => s.cmds != []
    case Show => s.waits
    case _ => true
  }

  /** The last command of the run that led to a page. */
  function LastLeading(s: Stack, cs: seq<Command>): Option<Command> {
    if cs == [] then None
    else
      var k := |cs| - 1;
      if Leads(DoAll(s, cs[..k]), cs[k]) then Some(cs[k]) else LastLeading(s, cs[..k])
  }

  /** After any run a page waits exactly if the last command that led to a page started
      sampling. */
  lemma {:induction false} WaitsIff(s: Stack, cs: seq<Command>)
    requires s.waits ==> s.cmds != []
    ensures var t := DoAll(s, cs); var last := LastLeading(s, cs);
            && (t.waits ==> t.cmds != [])
            && t.waits == if last.Some? then Samples(last.value) else s.waits
    decreases |cs|
  {
    if cs != [] {
      var k := |cs| - 1;
      WaitsIff(s, cs[..k]);
      assert cs == cs[..k] + [cs[k]];
      DoAllLast(s, cs[..k], cs[k]);
    }
  }

  // ---------------------------------------------------------------------------
  // The code

  class PageList {
    var head: Page?
    var tail: Page?
    var cur: Page?
    var nextRun: Page?
    var npages: int
    ghost var pages: seq<Page>
    ghost var dropped: seq<Page>

    /** The list is sound, wherever the current page is. Pages in it are not freed, pages
        dropped from it were freed once. */
    ghost predicate Sound()
      reads this, pages, dropped
    {
      && Distinct(pages) && Linked(pages) && npages == |pages|
      && head == (if pages == [] then null else pages[0])
      && tail == (if pages == [] then null else pages[|pages| - 1])
      && (forall i :: 0 <= i < |pages| ==> pages[i].frees == 0)
      && forall i :: 0 <= i < |dropped| ==> dropped[i].frees == 1
    }

    /** Between commands the last page is the current one, and only it can be waiting. */
    ghost predicate Valid()
      reads this, pages, dropped
    {
      Sound() && cur == tail && (nextRun == null || nextRun == cur)
    }

    ghost function View(): Stack
      reads this
    {
      Stack(Cmds(pages), nextRun != null)
    }

    constructor ()
      ensures Valid() && pages == [] && dropped == [] && View() == Stack([], false)
    {
      head, tail, cur, nextRun, npages := null, null, null, null, 0;
      pages, dropped := [], [];
    }

    /** The loop of `page_drop_next`, which frees the k-th page and all after it. */
    method FreeFrom(first: Page?, ghost k: nat)
      requires Sound() && k <= |pages| && first == (if k < |pages| then pages[k] else null)
      modifies this`npages, pages`frees
      ensures npages == k
      ensures forall i :: 0 <= i < |pages| ==> pages[i].frees == if i < k then 0 else 1
      ensures forall i :: 0 <= i < |dropped| ==> dropped[i].frees == 1
    {
      var next := first;
      ghost var i := k;
      while next != null
        invariant k <= i <= |pages| && next == (if i < |pages| then pages[i] else null)
        invariant npages == |pages| - (i - k)
        invariant forall j :: 0 <= j < |pages| ==> pages[j].frees == if k <= j < i then 1 else 0
        invariant forall j :: 0 <= j < |dropped| ==> dropped[j].frees == 1
        decreases |pages| - i
      {
        assert LinkedAt(pages, i);
        var p := next.next;
        next.frees := next.frees + 1;
        npages := npages - 1;
        next := p;
        i := i + 1;
      }
    }

    /** `page_drop_next` */
    method DropNext(page: Page?, ghost k: int)
      requires Sound() && -1 <= k < |pages| && page == (if k < 0 then null else pages[k])
      modifies this`npages, this`tail, this`pages, this`dropped, pages`next, pages`frees
      ensures Sound()
      ensures k >= 0 ==> pages == old(pages)[..k + 1] && dropped == old(dropped) + old(pages)[k + 1..]
      ensures k < 0 ==> pages == old(pages) && dropped == old(dropped)
    {
      if page == null {
        return;
      }
      assert LinkedAt(pages, k);
      assert forall i, j :: 0 <= i < j < |pages| ==> pages[i] != pages[j];
      FreeFrom(page.next, k + 1);
      page.next := null;
      tail := page;
      ghost var s := pages;
      pages, dropped := s[..k + 1], dropped + s[k + 1..];
      forall i | 0 <= i < |pages|
        ensures LinkedAt(pages, i)
      {
        assert old(LinkedAt(s, i));
      }
    }

    /** `page_append` */
    method Append(page: Page)
      requires Sound() && page !in pages && page !in dropped && page.frees == 0
      modifies this`head, this`tail, this`npages, this`pages, page`prev, page`next, pages`next
      ensures Sound() && pages == old(pages) + [page]
    {
      page.prev := null;
      page.next := null;
      ghost var s := pages;
      if tail != null {
        tail.next := page;
        page.prev := tail;
      } else {
        head := page;
      }
      tail := page;
      npages := npages + 1;
      pages := s + [page];
      forall i | 0 <= i < |pages|
        ensures LinkedAt(pages, i)
      {
        if i < |s| {
          assert old(LinkedAt(s, i));
          assert pages[i] == s[i];
        }
      }
    }

    /** `page_create`; the new page is shown by the caller. */
    method Create(cmd: int) returns (page: Page)
      requires Valid()
      modifies this`head, this`tail, this`npages, this`nextRun, this`pages, this`dropped, pages`next, pages`frees
      ensures Sound() && fresh(page) && page.cmd == cmd && pages == old(pages) + [page] && dropped == old(dropped)
      ensures nextRun == page && cur == old(cur)
    {
      page := new Page(cmd);
      DropNext(cur, |pages| - 1);
      assert pages == old(pages) && dropped == old(dropped);
      Append(page);
      nextRun := page;
    }

    /** `page_next_execute`; `on` is the page given to `page_show`, and `shown` what that
        returns. The page becomes current
        even if it could not be shown. */
    method NextExecute(smpl: bool, shown: bool) returns (ret: bool, on: Page?)
      modifies this`cur, this`nextRun
      ensures on == old(nextRun)
      ensures ret == (old(nextRun) != null && shown)
      ensures cur == if old(nextRun) == null then old(cur) else old(nextRun)
      ensures nextRun == if smpl then old(nextRun) else null
    {
      var next := nextRun;
      if next == null {
        return false, null;
      }
      ret, on := shown, next;
      cur := next;
      if smpl {
        nextRun := next;
      } else {
        nextRun := null;
      }
    }

    /** `op_page_next` */
    method OpNext(cmd: int, smpl: bool, shown: bool) returns (ok: bool, on: Page?)
      requires Valid()
      modifies this, pages`next, pages`frees
      ensures pages != [] && on == cur == pages[|pages| - 1] && pages[|pages| - 1].cmd == cmd && nextRun == if smpl then cur else null
      ensures Valid() && View() == Do(old(View()), Next(cmd, smpl)) && ok == shown
      ensures |pages| == |old(pages)| + 1 && old(pages) <= pages && fresh(pages[|pages| - 1]) && dropped == old(dropped)
    {
      var page := Create(cmd);
      ok, on := NextExecute(smpl, shown);
    }

    /** `op_page_prev` */
    method OpBack(smpl: bool, shown: bool) returns (ok: bool, on: Page?)
      requires Valid()
      modifies this, pages`next, pages`frees
      ensures Valid() && View() == Do(old(View()), Back(smpl)) && ok == (|old(pages)| < 2 || shown)
      ensures |old(pages)| >= 2 ==> pages + [old(cur)] == old(pages) && dropped == old(dropped) + [old(cur)]
      ensures |old(pages)| >= 2 ==> on == cur == old(pages)[|old(pages)| - 2] && nextRun == if smpl then cur else null
      ensures |old(pages)| < 2 ==> pages == old(pages) && dropped == old(dropped) && on == null && nextRun == old(nextRun)
    {
      ghost var n := |pages|;
      assert n > 0 ==> LinkedAt(pages, n - 1);
      var prev: Page? := if cur != null then cur.prev else null;
      if prev == null {
        return true, null;
      }
      DropNext(prev, n - 2);
      cur := prev;
      nextRun := prev;
      ok, on := NextExecute(smpl, shown);
    }

    /** `op_refresh`; `started` is what starting to sample the current page returns. */
    method OpRefresh(started: bool, shown: bool) returns (ok: bool, on: Page?)
      requires Valid() && pages != []
      modifies this`cur, this`nextRun
      ensures cur == old(cur) && on == (if started then null else cur) && nextRun == if started then cur else null
      ensures Valid() && View() == Do(old(View()), Refresh(started)) && ok == (started || shown)
    {
      nextRun := cur;
      ok, on := true, null;
      if !started {
        ok, on := NextExecute(false, shown);
      }
    }

    /** A refresh, then what the thread with the data does: the current page is shown
        exactly once, by the one or by the other. */
    method RefreshThenShow(started: bool, first: bool, second: bool) returns (ok: bool, on: Page?, now: Page?)
      requires Valid() && pages != []
      modifies this`cur, this`nextRun
      ensures Valid() && cur == old(cur) && nextRun == null
      ensures if started then on == null && now == cur && ok == second else on == cur && now == null && !ok
    {
      var refreshed;
      refreshed, on := OpRefresh(started, first);
      ok, now := OpShow(second);
    }

    /** `page_list_fini` */
    method Fini()
      requires Sound()
      modifies this, pages`frees
      ensures Valid() && pages == [] && dropped == old(dropped) + old(pages) && View() == Stack([], false)
    {
      FreeFrom(head, 0);
      head, tail, cur, nextRun, npages := null, null, null, null, 0;
      pages, dropped := [], dropped + pages;
    }

    /** `op_home` */
    method OpHome(cmd: int, smpl: bool, shown: bool) returns (ok: bool, on: Page?)
      requires Valid()
      modifies this, pages`next, pages`frees
      ensures Valid() && View() == Do(old(View()), Home(cmd, smpl)) && ok == shown
      ensures |pages| == 1 && fresh(pages[0]) && dropped == old(dropped) + old(pages)
      ensures on == cur == pages[0] && pages[0].cmd == cmd && nextRun == if smpl then cur else null
    {
      Fini();
      ok, on := OpNext(cmd, smpl, shown);
    }

    /** The thread that got the sampled data shows the waiting page. */
    method OpShow(shown: bool) returns (ok: bool, on: Page?)
      requires Valid()
      modifies this`cur, this`nextRun
      ensures Valid() && View() == Do(old(View()), Show) && ok == (old(nextRun) != null && shown)
      ensures on == old(nextRun) && nextRun == null && cur == old(cur)
    {
      ok, on := NextExecute(false, shown);
    }
  }
}
