/**
 What the steps of the lifetime protocol achieve: references are granted, dropped and, at
 the end, objects freed.
 */
module LifetimeProgress {
  import opened Basics
  import opened Lifetime

  lemma Reached(run: seq<Step>)
    requires ValidRun(INIT, run)
    ensures Inv(After(INIT, run))
  {
    InitInv();
    RunKeepsInv(INIT, run);
  }

  /** Only these references changed, by d. */
  ghost predicate HoldsMoved(s: State, t: State, h: Hold, d: int) {
    forall k :: t.holds[k] == s.holds[k] + if k == h then d else 0
  }

  ghost predicate OthersStay(s: State, t: State, p: Id) {
    (forall q :: q in s.procs && q != p ==> q in t.procs && t.procs[q] == s.procs[q]) && t.lwps == s.lwps
  }

  ghost predicate OtherThreadsStay(s: State, t: State, l: Id) {
    (forall m :: m in s.lwps && m != l ==> m in t.lwps && t.lwps[m] == s.lwps[m]) && t.procs == s.procs
  }

  /** A process that is looked up is still in the table, so the find is never refused: it
      raises the count and the references held by exactly one and makes it the latest. */
  lemma FindGrants(run: seq<Step>, pid: int, p: Id)
    requires ValidRun(INIT, run) && Enabled(After(INIT, run), Find(pid, p))
    ensures var s := After(INIT, run); var t := Apply(s, Find(pid, p));
            && s.procs[p].inTable && s.procs[p].pid == pid && !s.procs[p].removing
            && t.procs[p] == s.procs[p].(refs := s.procs[p].refs + 1) && t.latest == Some(p)
            && HoldsMoved(s, t, ProcRef(p), 1) && OthersStay(s, t, p)
  {
    Reached(run);
    hide ValidRun, After;
    var s := After(INIT, run);
    assert ProcOk(s, p);
  }

  /** A thread that is looked up is still listed; it is refused if and only if it is
      quitting, and otherwise its count and the references held rise by exactly one. */
  lemma LwpFindGrantsIff(run: seq<Step>, p: Id, l: Id)
    requires ValidRun(INIT, run) && Enabled(After(INIT, run), LwpFind(p, l))
    ensures var s := After(INIT, run); var t := Apply(s, LwpFind(p, l));
            && s.lwps[l].owner == p && !s.lwps[l].removing
            && (s.lwps[l].quitting <==> t.lwps[l].refs == s.lwps[l].refs)
            && (s.lwps[l].quitting ==> t == s)
            && (!s.lwps[l].quitting ==>
                  t.lwps[l] == s.lwps[l].(refs := s.lwps[l].refs + 1) && HoldsMoved(s, t, LwpRef(l), 1) && OtherThreadsStay(s, t, l))
  {
    hide *;
    Reached(run);
    ListedLwp(After(INIT, run), p, l);
    LwpFindDoes(After(INIT, run), p, l);
  }

  lemma ListedLwp(s: State, p: Id, l: Id)
    requires Inv(s) && Enabled(s, LwpFind(p, l))
    ensures s.lwps[l].owner == p && !s.lwps[l].removing
  {
    hide Apply;
    assert ProcOk(s, p) && LwpOk(s, l);
  }

  lemma LwpFindDoes(s: State, p: Id, l: Id)
    requires Enabled(s, LwpFind(p, l)) && !s.lwps[l].removing
    ensures var t := Apply(s, LwpFind(p, l));
            && (s.lwps[l].quitting ==> t == s)
            && (!s.lwps[l].quitting ==>
                  t.lwps[l] == s.lwps[l].(refs := s.lwps[l].refs + 1) && HoldsMoved(s, t, LwpRef(l), 1) && OtherThreadsStay(s, t, l))
  {
    hide LooksUp, ProcFree, LwpFreeAll, LwpFree;
  }

  /** A process that is added can be found, unless the latest one has its pid. */
  lemma AddIsFound(run: seq<Step>, p: Id, pid: int)
    requires ValidRun(INIT, run) && Enabled(After(INIT, run), Add(p, pid))
    requires var s := After(INIT, run); s.latest.Some? ==> s.latest.value in s.procs && s.procs[s.latest.value].pid != pid
    ensures var s := After(INIT, run); var t := Apply(s, Add(p, pid));
            && Enabled(t, Find(pid, p)) && t.procs[p].refs == 0 && !t.procs[p].removing && t.procs[p].frees == 0
            && t.procs[p].lwps == {} && t.holds == s.holds && OthersStay(s, t, p)
  {
    Reached(run);
    hide ValidRun, After;
  }

  /** After an enumeration whoever holds the process can find exactly the threads enumerated,
      and is granted any of them that is not quitting. Those not enumerated are freed if
      nobody holds them, and marked otherwise. */
  lemma EnumIsFound(run: seq<Step>, p: Id, now: set<Id>, l: Id)
    requires ValidRun(INIT, run) && Enabled(After(INIT, run), LwpEnum(p, now)) && ProcRef(p) in After(INIT, run).holds
    ensures var s := After(INIT, run); var t := Apply(s, LwpEnum(p, now));
            && (Enabled(t, LwpFind(p, l)) <==> l in now)
            && (l in now && l !in s.lwps ==> t.lwps[l] == Lwp(p, 0, false, false, 0))
            && (l in now && l in s.lwps ==> t.lwps[l] == s.lwps[l])
            && (l in s.procs[p].lwps && l !in now ==>
                  && l in s.lwps && (s.lwps[l].refs == 0 ==> t.lwps[l] == s.lwps[l].(frees := 1))
                  && (s.lwps[l].refs > 0 ==> t.lwps[l] == s.lwps[l].(removing := true)))
            && t.holds == s.holds
  {
    assert p in After(INIT, run).procs;
    hide *;
    Reached(run);
    EnumOld(After(INIT, run), p, l);
    EnumDoes(After(INIT, run), p, now, l);
  }

  lemma EnumOld(s: State, p: Id, l: Id)
    requires Inv(s) && p in s.procs
    ensures l in s.procs[p].lwps ==> l in s.lwps && s.lwps[l].frees == 0
  {
    assert ProcOk(s, p);
    assert l in s.lwps ==> LwpOk(s, l);
  }

  lemma EnumDoes(s: State, p: Id, now: set<Id>, l: Id)
    requires Enabled(s, LwpEnum(p, now)) && ProcRef(p) in s.holds
    requires l in s.procs[p].lwps ==> l in s.lwps && s.lwps[l].frees == 0
    ensures var t := Apply(s, LwpEnum(p, now));
            && (Enabled(t, LwpFind(p, l)) <==> l in now)
            && (l in now && l !in s.lwps ==> t.lwps[l] == Lwp(p, 0, false, false, 0))
            && (l in now && l in s.lwps ==> t.lwps[l] == s.lwps[l])
            && (l in s.procs[p].lwps && l !in now ==>
                  && (s.lwps[l].refs <= 0 ==> t.lwps[l] == s.lwps[l].(frees := 1))
                  && (s.lwps[l].refs > 0 ==> t.lwps[l] == s.lwps[l].(removing := true)))
            && t.holds == s.holds
  {
    hide LooksUp, ProcFree;
  }

  /** A drop takes away exactly one reference; who drops the last one to a marked process
      has it to free. */
  lemma ProcDecDrops(run: seq<Step>, p: Id)
    requires ValidRun(INIT, run) && Enabled(After(INIT, run), ProcDec(p))
    ensures var s := After(INIT, run); var t := Apply(s, ProcDec(p)); var last := s.procs[p].refs == 1 && s.procs[p].removing;
            && t.procs[p] == s.procs[p].(refs := s.procs[p].refs - 1) && OthersStay(s, t, p) && t.latest == s.latest
            && (forall k :: t.holds[k] == s.holds[k] + (if k == ProcRef(p) then -1 else if k == ProcFreeing(p) && last then 1 else 0))
  {
    hide ValidRun, After, LooksUp, ProcFree, LwpFreeAll, LwpFree;
  }

  lemma LwpDecDrops(run: seq<Step>, l: Id)
    requires ValidRun(INIT, run) && Enabled(After(INIT, run), LwpDec(l))
    ensures var s := After(INIT, run); var t := Apply(s, LwpDec(l)); var last := s.lwps[l].refs == 1 && s.lwps[l].removing;
            && t.lwps[l] == s.lwps[l].(refs := s.lwps[l].refs - 1) && OtherThreadsStay(s, t, l)
            && (forall k :: t.holds[k] == s.holds[k] + (if k == LwpRef(l) then -1 else if k == LwpFreeing(l) && last then 1 else 0))
  {
    hide ValidRun, After, LooksUp, ProcFree, LwpFreeAll, LwpFree;
  }

  /** Who has a process to free frees it, and every thread in it that nobody holds. */
  lemma ProcDecFreeFrees(run: seq<Step>, p: Id)
    requires ValidRun(INIT, run) && Enabled(After(INIT, run), ProcDecFree(p))
    ensures var s := After(INIT, run); var t := Apply(s, ProcDecFree(p));
            && t.procs[p].frees == 1 && t.procs[p].lwps == {}
            && (forall l :: l in s.procs[p].lwps ==> l in t.lwps && if s.lwps[l].refs == 0 then t.lwps[l].frees == 1 else t.lwps[l].removing)
            && HoldsMoved(s, t, ProcFreeing(p), -1)
  {
    Reached(run);
    hide ValidRun, After;
    var s := After(INIT, run);
    assert ProcOk(s, p);
    FreeingProc(s, p);
    forall l | l in s.procs[p].lwps
      ensures l in s.lwps && (s.lwps[l].refs == 0 ==> s.lwps[l].frees == 0)
    {
      assert LwpOk(s, l);
    }
  }

  /** One thread at most has it to free, and it is not referenced. */
  lemma FreeingProc(s: State, p: Id)
    requires Inv(s) && ProcFreeing(p) in s.holds && p in s.procs
    ensures s.procs[p].refs == 0 && s.procs[p].frees == 0 && s.holds[ProcFreeing(p)] == 1
  {
    assert ProcOk(s, p);
  }

  lemma LwpDecFreeFrees(run: seq<Step>, l: Id)
    requires ValidRun(INIT, run) && Enabled(After(INIT, run), LwpDecFree(l))
    ensures var s := After(INIT, run); var t := Apply(s, LwpDecFree(l));
            t.lwps[l] == s.lwps[l].(frees := 1) && HoldsMoved(s, t, LwpFreeing(l), -1) && OtherThreadsStay(s, t, l)
  {
    hide *;
    Reached(run);
    FreeingLwp(After(INIT, run), l);
    LwpDecFreeDoes(After(INIT, run), l);
  }

  lemma FreeingLwp(s: State, l: Id)
    requires Inv(s) && Enabled(s, LwpDecFree(l))
    ensures s.lwps[l].refs == 0 && s.lwps[l].frees == 0
  {
    hide Apply;
    assert LwpOk(s, l);
  }

  lemma LwpDecFreeDoes(s: State, l: Id)
    requires Enabled(s, LwpDecFree(l)) && s.lwps[l].refs == 0 && s.lwps[l].frees == 0
    ensures var t := Apply(s, LwpDecFree(l));
            t.lwps[l] == s.lwps[l].(frees := 1) && HoldsMoved(s, t, LwpFreeing(l), -1) && OtherThreadsStay(s, t, l)
  {
    hide LooksUp, ProcFree, LwpFreeAll;
  }

  /** Removing a process takes it out of the table, frees it if nobody holds it and marks it
      otherwise. */
  lemma RemoveTakesOut(run: seq<Step>, p: Id)
    requires ValidRun(INIT, run) && Enabled(After(INIT, run), Remove(p))
    ensures var s := After(INIT, run); var t := Apply(s, Remove(p));
            && !t.procs[p].inTable && t.latest != Some(p) && t.holds == s.holds
            && (if s.procs[p].refs == 0 then t.procs[p].frees == 1 else t.procs[p].removing && t.procs[p].lwps == s.procs[p].lwps)
            && forall q :: q in s.procs && q != p ==> q in t.procs && t.procs[q] == s.procs[q]
  {
    Reached(run);
    hide ValidRun, After;
    assert ProcOk(After(INIT, run), p);
  }

  /** What left the table stays out of it, and no find returns it. */
  lemma {:induction false} GoneForGood(s: State, run: seq<Step>, p: Id, pid: int)
    requires Inv(s) && ValidRun(s, run) && p in s.procs && !s.procs[p].inTable
    ensures var t := After(s, run); p in t.procs && !t.procs[p].inTable && !Enabled(t, Find(pid, p))
    decreases run
  {
    if run == [] {
      hide Apply;
      assert s.latest != Some(p);
    } else {
      StaysOut(s, run[0], p);
      StepKeepsInv(s, run[0]);
      hide Inv, Enabled, Apply;
      GoneForGood(Apply(s, run[0]), run[1..], p, pid);
    }
  }

  lemma StaysOut(s: State, step: Step, p: Id)
    requires Enabled(s, step) && p in s.procs && !s.procs[p].inTable
    ensures p in Apply(s, step).procs && !Apply(s, step).procs[p].inTable
  {
    match step
    case Remove(q) =>
      FreeKeepsTable(s.(procs := s.procs[q := s.procs[q].(inTable := false)],
                        latest := if s.latest == Some(q) then None else s.latest), q, p);
      hide LooksUp, LwpFreeAll, LwpFree, ProcFree;
    case ProcDecFree(q) =>
      FreeKeepsTable(s, q, p);
      hide LooksUp, LwpFreeAll, LwpFree, ProcFree;
    case _ =>
      hide LooksUp, LwpFreeAll, LwpFree, ProcFree;
  }

  lemma FreeKeepsTable(s: State, q: Id, p: Id)
    requires p in s.procs && q in s.procs
    ensures p in ProcFree(s, q).procs && ProcFree(s, q).procs[p].inTable == s.procs[p].inTable
  {
    hide LwpFreeAll;
  }

  /** From when a thread is set quitting, whatever follows, its count never rises. */
  lemma QuitRefuses(s: State, l: Id, run: seq<Step>)
    requires Enabled(s, LwpQuit(l)) && ValidRun(Apply(s, LwpQuit(l)), run)
    ensures var t := After(Apply(s, LwpQuit(l)), run); l in t.lwps && t.lwps[l].quitting && t.lwps[l].refs <= s.lwps[l].refs
  {
    QuittingGrantsNothing(Apply(s, LwpQuit(l)), l, run);
  }

  lemma {:induction false} QuittingGrantsNothing(s: State, l: Id, run: seq<Step>)
    requires ValidRun(s, run) && l in s.lwps && s.lwps[l].quitting
    ensures var t := After(s, run); l in t.lwps && t.lwps[l].quitting && t.lwps[l].refs <= s.lwps[l].refs
    decreases run
  {
    if run != [] {
      LwpChanges(s, run[0], l);
      hide Enabled, Apply;
      QuittingGrantsNothing(Apply(s, run[0]), l, run[1..]);
    }
  }
}
