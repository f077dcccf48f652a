/**
 The two-level lifetime protocol of tracked processes and threads: reference counts
 with deferred free. Each step is one critical section of proc.c or lwp.c, so a run
 is any interleaving of them by any number of threads. The walk that frees a process's
 threads takes their mutexes one by one but is one step here: a drop that comes between
 two of its frees does what it does before the walk or after it (`WalkMerges`).
 */
module Lifetime {
  import opened Basics

  type Id = nat

  datatype Proc = Proc(pid: int, inTable: bool, refs: int, removing: bool, frees: nat, lwps: set<Id>)
  datatype Lwp = Lwp(owner: Id, refs: int, removing: bool, quitting: bool, frees: nat)

  /** What a thread is in the middle of: holding a reference, or having dropped the
      last one to an object marked `removing` and not yet freed it. */
  datatype Hold = ProcRef(p: Id) | ProcFreeing(p: Id) | LwpRef(l: Id) | LwpFreeing(l: Id)

  datatype State = State(procs: map<Id, Proc>, lwps: map<Id, Lwp>, latest: Option<Id>, holds: multiset<Hold>)

  const INIT := State(map[], map[], None, multiset{})

  // ---------------------------------------------------------------------------
  // The code inside the critical sections

  function LwpFree(l: Lwp): Lwp {
    if l.refs > 0 then l.(removing := true) else l.(frees := l.frees + 1)
  }

  function LwpFreeAll(lwps: map<Id, Lwp>, gone: set<Id>): map<Id, Lwp> {
    map l | l in lwps :: if l in gone then LwpFree(lwps[l]) else lwps[l]
  }

  function ProcFree(s: State, p: Id): State
    requires p in s.procs
  {
    var x := s.procs[p];
    if x.refs > 0 then s.(procs := s.procs[p := x.(removing := true)])
    else s.(procs := s.procs[p := x.(frees := x.frees + 1, lwps := {})],
            lwps := LwpFreeAll(s.lwps, x.lwps))
  }

  // ---------------------------------------------------------------------------
  // Steps

  datatype Step =
    | Find(pid: int, p: Id)                 // proc_find_nolock, having looked up p
    | ProcDec(p: Id)                        // first half of proc_refcount_dec
    | ProcDecFree(p: Id)                    // its second half, under the group's mutex
    | Add(p: Id, pid: int)                  // proc_alloc and proc_group_add
    | Remove(p: Id)                         // proc_group_remove and proc_free
    | LwpFind(p: Id, l: Id)                 // proc_lwp_find, having found l in the list
    | LwpDec(l: Id)                         // first half of lwp_refcount_dec
    | LwpDecFree(l: Id)                     // its second half
    | LwpEnum(p: Id, now: set<Id>)          // lwp_enum_update
    | LwpQuit(l: Id)                        // lwp_quitting_set

  /** What `proc_find_nolock` finds: the latest entry if its pid matches, else the table's. */
  predicate LooksUp(s: State, pid: int, p: Id) {
    && (s.latest.Some? ==> s.latest.value in s.procs)
    && if s.latest.Some? && s.procs[s.latest.value].pid == pid then p == s.latest.value
       else p in s.procs && s.procs[p].inTable && s.procs[p].pid == pid
  }

  /** A thread may run the step: it drops only what it holds, looks up threads only in
      a process it holds, and allocation returns objects not in use. */
  predicate Enabled(s: State, step: Step) {
    match step
    case Find(pid, p) => LooksUp(s, pid, p)
    case ProcDec(p) => ProcRef(p) in s.holds && p in s.procs
    case ProcDecFree(p) => ProcFreeing(p) in s.holds && p in s.procs
    case Add(p, pid) => p !in s.procs
    case Remove(p) => p in s.procs && s.procs[p].inTable
    case LwpFind(p, l) => ProcRef(p) in s.holds && p in s.procs && l in s.procs[p].lwps && l in s.lwps
    case LwpDec(l) => LwpRef(l) in s.holds && l in s.lwps
    case LwpDecFree(l) => LwpFreeing(l) in s.holds && l in s.lwps
    case LwpEnum(p, now) =>
      p in s.procs && s.procs[p].inTable && forall l :: l in now && l in s.lwps ==> l in s.procs[p].lwps
    case LwpQuit(l) => l in s.lwps && LwpRef(l) in s.holds
  }

  function Apply(s: State, step: Step): State
    requires Enabled(s, step)
  {
    match step
    case Find(pid, p) =>
      var x := s.procs[p];
      if x.removing then s.(latest := if s.latest == Some(p) then None else s.latest)
      else s.(procs := s.procs[p := x.(refs := x.refs + 1)], latest := Some(p), holds := s.holds + multiset{ProcRef(p)})
    case ProcDec(p) =>
      var x := s.procs[p].(refs := s.procs[p].refs - 1);
      var left := s.holds - multiset{ProcRef(p)};
      s.(procs := s.procs[p := x],
         holds := if x.refs == 0 && x.removing then left + multiset{ProcFreeing(p)} else left)
    case ProcDecFree(p) => ProcFree(s, p).(holds := s.holds - multiset{ProcFreeing(p)})
    case Add(p, pid) => s.(procs := s.procs[p := Proc(pid, true, 0, false, 0, {})])
    case Remove(p) =>
      ProcFree(s.(procs := s.procs[p := s.procs[p].(inTable := false)],
                  latest := if s.latest == Some(p) then None else s.latest), p)
    case LwpFind(p, l) =>
      var x := s.lwps[l];
      if x.removing || x.quitting then s
      else s.(lwps := s.lwps[l := x.(refs := x.refs + 1)], holds := s.holds + multiset{LwpRef(l)})
    case LwpDec(l) =>
      var x := s.lwps[l].(refs := s.lwps[l].refs - 1);
      var left := s.holds - multiset{LwpRef(l)};
      s.(lwps := s.lwps[l := x],
         holds := if x.refs == 0 && x.removing then left + multiset{LwpFreeing(l)} else left)
    case LwpDecFree(l) =>
      s.(lwps := s.lwps[l := LwpFree(s.lwps[l])], holds := s.holds - multiset{LwpFreeing(l)})
    case LwpEnum(p, now) =>
      var was := s.procs[p].lwps;
      var freed := LwpFreeAll(s.lwps, was - now);
      var added := map l | l in now && l !in s.lwps :: Lwp(p, 0, false, false, 0);
      s.(procs := s.procs[p := s.procs[p].(lwps := now)], lwps := freed + added)
    case LwpQuit(l) => s.(lwps := s.lwps[l := s.lwps[l].(quitting := true)])
  }

  /** A step on one thread's own mutex, which a walk over other threads does not exclude. */
  predicate OnThread(step: Step, l: Id) {
    step == LwpDec(l) || step == LwpDecFree(l) || step == LwpQuit(l)
  }

  function Walked(s: State, gone: set<Id>): State {
    s.(lwps := LwpFreeAll(s.lwps, gone))
  }

  /** A walk frees the threads `first`, then another thread takes a step on l, then the walk
      frees `rest`: the outcome is that of the step after the whole walk, if l was already
      passed, and of the step before it otherwise. */
  lemma WalkMerges(s: State, first: set<Id>, rest: set<Id>, step: Step, l: Id)
    requires first !! rest && OnThread(step, l) && Enabled(s, step)
    ensures Enabled(Walked(s, first), step) && Enabled(Walked(s, first + rest), step)
    ensures Walked(Apply(Walked(s, first), step), rest) ==
            if l in first then Apply(Walked(s, first + rest), step) else Walked(Apply(s, step), first + rest)
  {
    ThreadStep(s, step, l);
    ThreadStep(Walked(s, first), step, l);
    ThreadStep(Walked(s, first + rest), step, l);
    hide *;
    WalkSteps(s, first);
    WalkSteps(s, first + rest);
    WalkMap(s.lwps, first, rest, l, LwpAfter(LwpFreeAll(s.lwps, first)[l], step));
  }

  lemma WalkSteps(s: State, gone: set<Id>)
    ensures Walked(s, gone) == s.(lwps := LwpFreeAll(s.lwps, gone))
    ensures LwpFreeAll(s.lwps, gone).Keys == s.lwps.Keys
    ensures forall l :: l in s.lwps ==> LwpFreeAll(s.lwps, gone)[l] == if l in gone then LwpFree(s.lwps[l]) else s.lwps[l]
  {
  }

  lemma WalkMap(m: map<Id, Lwp>, first: set<Id>, rest: set<Id>, l: Id, y: Lwp)
    requires first !! rest && l in m
    ensures LwpFreeAll(LwpFreeAll(m, first)[l := y], rest) ==
            if l in first then LwpFreeAll(m, first + rest)[l := y] else LwpFreeAll(m[l := y], first + rest)
  {
    hide LwpFree;
  }

  function LwpAfter(x: Lwp, step: Step): Lwp {
    match step
    case LwpDec(_) => x.(refs := x.refs - 1)
    case LwpDecFree(_) => LwpFree(x)
    case _ => x.(quitting := true)
  }

  function HoldsAfter(holds: multiset<Hold>, x: Lwp, step: Step, l: Id): multiset<Hold> {
    match step
    case LwpDec(_) =>
      holds - multiset{LwpRef(l)} + if x.refs == 1 && x.removing then multiset{LwpFreeing(l)} else multiset{}
    case LwpDecFree(_) => holds - multiset{LwpFreeing(l)}
    case _ => holds
  }

  lemma ThreadStep(s: State, step: Step, l: Id)
    requires OnThread(step, l) && l in s.lwps && (LwpRef(l) in s.holds || step == LwpDecFree(l)) && (step == LwpDecFree(l) ==> LwpFreeing(l) in s.holds)
    ensures Enabled(s, step)
    ensures Apply(s, step) == s.(lwps := s.lwps[l := LwpAfter(s.lwps[l], step)], holds := HoldsAfter(s.holds, s.lwps[l], step, l))
  {
  }

  ghost predicate ValidRun(s: State, run: seq<Step>)
    decreases run
  {
    run == [] || (Enabled(s, run[0]) && ValidRun(Apply(s, run[0]), run[1..]))
  }

  ghost function After(s: State, run: seq<Step>): State
    requires ValidRun(s, run)
    decreases run
  {
    if run == [] then s else After(Apply(s, run[0]), run[1..])
  }

  // ---------------------------------------------------------------------------
  // The invariant

  /** An object is reachable from the table or list, or referenced and marked, or
      in one thread's hands to be freed, or freed: exactly one of these. */
  predicate Accounted(reachable: bool, refs: int, removing: bool, frees: nat, freeing: nat) {
    if reachable then !removing && frees == 0 && freeing == 0
    else if refs > 0 then removing && frees == 0 && freeing == 0
    else frees + freeing == 1
  }

  predicate ProcOk(s: State, p: Id)
    requires p in s.procs
  {
    var x := s.procs[p];
    && x.refs == s.holds[ProcRef(p)]
    && Accounted(x.inTable, x.refs, x.removing, x.frees, s.holds[ProcFreeing(p)])
    && (x.frees > 0 ==> x.lwps == {})
    && (forall l :: l in x.lwps ==> l in s.lwps && s.lwps[l].owner == p)
  }

  predicate Listed(s: State, l: Id)
    requires l in s.lwps && s.lwps[l].owner in s.procs
  {
    l in s.procs[s.lwps[l].owner].lwps
  }

  predicate LwpOk(s: State, l: Id)
    requires l in s.lwps
  {
    var x := s.lwps[l];
    && x.owner in s.procs
    && x.refs == s.holds[LwpRef(l)]
    && Accounted(Listed(s, l), x.refs, x.removing, x.frees, s.holds[LwpFreeing(l)])
  }

  predicate HoldOk(s: State, h: Hold) {
    match h
    case ProcRef(p) => p in s.procs
    case ProcFreeing(p) => p in s.procs
    case LwpRef(l) => l in s.lwps
    case LwpFreeing(l) => l in s.lwps
  }

  ghost predicate Inv(s: State) {
    && (forall p :: p in s.procs ==> ProcOk(s, p))
    && (forall l :: l in s.lwps ==> LwpOk(s, l))
    && (forall h :: h in s.holds ==> HoldOk(s, h))
    && (s.latest.Some? ==> s.latest.value in s.procs && s.procs[s.latest.value].inTable)
  }

  lemma FindKeepsInv(s: State, pid: int, p: Id)
    requires Inv(s) && Enabled(s, Find(pid, p))
    ensures Inv(Apply(s, Find(pid, p)))
  {
    var t := Apply(s, Find(pid, p));
    forall q | q in t.procs
      ensures ProcOk(t, q)
    {
      assert q in s.procs ==> ProcOk(s, q);
    }
    forall m | m in t.lwps
      ensures LwpOk(t, m)
    {
      assert m in s.lwps ==> LwpOk(s, m);
    }
  }

  lemma ProcDecKeepsProcs(s: State, p: Id)
    requires Inv(s) && Enabled(s, ProcDec(p))
    ensures var t := Apply(s, ProcDec(p)); forall q :: q in t.procs ==> ProcOk(t, q)
  {
    hide LwpOk, LooksUp;
    var t := Apply(s, ProcDec(p));
    forall q | q in t.procs
      ensures ProcOk(t, q)
    {
      assert ProcOk(s, q);
    }
  }

  lemma ProcDecKeepsLwps(s: State, p: Id)
    requires Inv(s) && Enabled(s, ProcDec(p))
    ensures var t := Apply(s, ProcDec(p)); forall m :: m in t.lwps ==> LwpOk(t, m)
  {
    hide LooksUp;
    var t := Apply(s, ProcDec(p));
    forall m | m in t.lwps
      ensures LwpOk(t, m)
    {
      assert LwpOk(s, m);
    }
  }

  lemma ProcDecKeepsInv(s: State, p: Id)
    requires Inv(s) && Enabled(s, ProcDec(p))
    ensures Inv(Apply(s, ProcDec(p)))
  {
    hide ProcOk, LwpOk, LooksUp, LwpFreeAll;
    ProcDecKeepsProcs(s, p);
    ProcDecKeepsLwps(s, p);
  }

  lemma ProcDecFreeKeepsProcs(s: State, p: Id)
    requires Inv(s) && Enabled(s, ProcDecFree(p))
    ensures var t := Apply(s, ProcDecFree(p)); forall q :: q in t.procs ==> ProcOk(t, q)
  {
    var t := Apply(s, ProcDecFree(p));
    forall q | q in t.procs
      ensures ProcOk(t, q)
    {
      assert ProcOk(s, q);
    }
  }

  lemma ProcDecFreeKeepsLwps(s: State, p: Id)
    requires Inv(s) && Enabled(s, ProcDecFree(p))
    ensures var t := Apply(s, ProcDecFree(p)); forall m :: m in t.lwps ==> LwpOk(t, m)
  {
    hide LooksUp;
    var t := Apply(s, ProcDecFree(p));
    forall m | m in t.lwps
      ensures LwpOk(t, m)
    {
      assert LwpOk(s, m);
    }
  }

  lemma ProcDecFreeKeepsInv(s: State, p: Id)
    requires Inv(s) && Enabled(s, ProcDecFree(p))
    ensures Inv(Apply(s, ProcDecFree(p)))
  {
    hide ProcOk, LwpOk, LooksUp;
    ProcDecFreeKeepsProcs(s, p);
    ProcDecFreeKeepsLwps(s, p);
  }

  lemma AddKeepsInv(s: State, p: Id, pid: int)
    requires Inv(s) && Enabled(s, Add(p, pid))
    ensures Inv(Apply(s, Add(p, pid)))
  {
    var t := Apply(s, Add(p, pid));
    forall q | q in t.procs
      ensures ProcOk(t, q)
    {
      assert q in s.procs ==> ProcOk(s, q);
    }
    forall m | m in t.lwps
      ensures LwpOk(t, m)
    {
      assert m in s.lwps ==> LwpOk(s, m);
    }
  }

  lemma RemoveKeepsProcs(s: State, p: Id)
    requires Inv(s) && Enabled(s, Remove(p))
    ensures var t := Apply(s, Remove(p)); forall q :: q in t.procs ==> ProcOk(t, q)
  {
    var t := Apply(s, Remove(p));
    forall q | q in t.procs
      ensures ProcOk(t, q)
    {
      assert ProcOk(s, q);
    }
  }

  lemma RemoveKeepsLwps(s: State, p: Id)
    requires Inv(s) && Enabled(s, Remove(p))
    ensures var t := Apply(s, Remove(p)); forall m :: m in t.lwps ==> LwpOk(t, m)
  {
    hide LooksUp;
    var t := Apply(s, Remove(p));
    forall m | m in t.lwps
      ensures LwpOk(t, m)
    {
      assert LwpOk(s, m);
    }
  }

  lemma RemoveKeepsInv(s: State, p: Id)
    requires Inv(s) && Enabled(s, Remove(p))
    ensures Inv(Apply(s, Remove(p)))
  {
    hide ProcOk, LwpOk, LooksUp;
    RemoveKeepsProcs(s, p);
    RemoveKeepsLwps(s, p);
  }

  lemma LwpFindKeepsProcs(s: State, p: Id, l: Id)
    requires Inv(s) && Enabled(s, LwpFind(p, l))
    ensures var t := Apply(s, LwpFind(p, l)); forall q :: q in t.procs ==> ProcOk(t, q)
  {
    hide LwpOk, LooksUp;
    var t := Apply(s, LwpFind(p, l));
    forall q | q in t.procs
      ensures ProcOk(t, q)
    {
      assert ProcOk(s, q);
    }
  }

  lemma LwpFindKeepsLwps(s: State, p: Id, l: Id)
    requires Inv(s) && Enabled(s, LwpFind(p, l))
    ensures var t := Apply(s, LwpFind(p, l)); forall m :: m in t.lwps ==> LwpOk(t, m)
  {
    hide LooksUp;
    var t := Apply(s, LwpFind(p, l));
    forall m | m in t.lwps
      ensures LwpOk(t, m)
    {
      assert LwpOk(s, m);
    }
  }

  lemma LwpFindKeepsInv(s: State, p: Id, l: Id)
    requires Inv(s) && Enabled(s, LwpFind(p, l))
    ensures Inv(Apply(s, LwpFind(p, l)))
  {
    hide ProcOk, LwpOk, LooksUp, LwpFreeAll;
    LwpFindKeepsProcs(s, p, l);
    LwpFindKeepsLwps(s, p, l);
  }

  lemma LwpDecKeepsProcs(s: State, l: Id)
    requires Inv(s) && Enabled(s, LwpDec(l))
    ensures var t := Apply(s, LwpDec(l)); forall q :: q in t.procs ==> ProcOk(t, q)
  {
    var t := Apply(s, LwpDec(l));
    forall q | q in t.procs
      ensures ProcOk(t, q)
    {
      assert ProcOk(s, q);
    }
  }

  lemma LwpDecKeepsInv(s: State, l: Id)
    requires Inv(s) && Enabled(s, LwpDec(l))
    ensures Inv(Apply(s, LwpDec(l)))
  {
    hide ProcOk;
    LwpDecKeepsProcs(s, l);
    var t := Apply(s, LwpDec(l));
    forall m | m in t.lwps
      ensures LwpOk(t, m)
    {
      assert m in s.lwps ==> LwpOk(s, m);
    }
  }

  lemma LwpDecFreeKeepsProcs(s: State, l: Id)
    requires Inv(s) && Enabled(s, LwpDecFree(l))
    ensures var t := Apply(s, LwpDecFree(l)); forall q :: q in t.procs ==> ProcOk(t, q)
  {
    hide LwpOk, LooksUp;
    var t := Apply(s, LwpDecFree(l));
    forall q | q in t.procs
      ensures ProcOk(t, q)
    {
      assert ProcOk(s, q);
    }
  }

  lemma LwpDecFreeKeepsLwps(s: State, l: Id)
    requires Inv(s) && Enabled(s, LwpDecFree(l))
    ensures var t := Apply(s, LwpDecFree(l)); forall m :: m in t.lwps ==> LwpOk(t, m)
  {
    hide LooksUp;
    var t := Apply(s, LwpDecFree(l));
    forall m | m in t.lwps
      ensures LwpOk(t, m)
    {
      assert LwpOk(s, m);
    }
  }

  lemma LwpDecFreeKeepsInv(s: State, l: Id)
    requires Inv(s) && Enabled(s, LwpDecFree(l))
    ensures Inv(Apply(s, LwpDecFree(l)))
  {
    hide ProcOk, LwpOk, LooksUp, LwpFreeAll;
    LwpDecFreeKeepsProcs(s, l);
    LwpDecFreeKeepsLwps(s, l);
  }

  lemma LwpEnumKeepsProcs(s: State, p: Id, now: set<Id>)
    requires Inv(s) && Enabled(s, LwpEnum(p, now))
    ensures var t := Apply(s, LwpEnum(p, now)); forall q :: q in t.procs ==> ProcOk(t, q)
  {
    var t := Apply(s, LwpEnum(p, now));
    forall q | q in t.procs
      ensures ProcOk(t, q)
    {
      assert ProcOk(s, q);
    }
  }

  lemma LwpEnumKeepsLwp(s: State, p: Id, now: set<Id>, m: Id)
    requires Enabled(s, LwpEnum(p, now)) && m in Apply(s, LwpEnum(p, now)).lwps
    requires ProcOk(s, p) && s.procs[p].inTable
    requires if m in s.lwps then LwpOk(s, m) else s.holds[LwpRef(m)] == 0 && s.holds[LwpFreeing(m)] == 0
    ensures LwpOk(Apply(s, LwpEnum(p, now)), m)
  {
  }

  lemma LwpEnumKeepsInv(s: State, p: Id, now: set<Id>)
    requires Inv(s) && Enabled(s, LwpEnum(p, now))
    ensures Inv(Apply(s, LwpEnum(p, now)))
  {
    hide ProcOk, LwpOk;
    LwpEnumKeepsProcs(s, p, now);
    var t := Apply(s, LwpEnum(p, now));
    forall m | m in t.lwps
      ensures LwpOk(t, m)
    {
      assert LwpRef(m) in s.holds || LwpFreeing(m) in s.holds ==> m in s.lwps by {
        assert forall h :: h in s.holds ==> HoldOk(s, h);
      }
      LwpEnumKeepsLwp(s, p, now, m);
    }
  }

  lemma LwpQuitKeepsProcs(s: State, l: Id)
    requires Inv(s) && Enabled(s, LwpQuit(l))
    ensures var t := Apply(s, LwpQuit(l)); forall q :: q in t.procs ==> ProcOk(t, q)
  {
    hide LwpOk, LooksUp;
    var t := Apply(s, LwpQuit(l));
    forall q | q in t.procs
      ensures ProcOk(t, q)
    {
      assert ProcOk(s, q);
    }
  }

  lemma LwpQuitKeepsLwps(s: State, l: Id)
    requires Inv(s) && Enabled(s, LwpQuit(l))
    ensures var t := Apply(s, LwpQuit(l)); forall m :: m in t.lwps ==> LwpOk(t, m)
  {
    hide LooksUp;
    var t := Apply(s, LwpQuit(l));
    forall m | m in t.lwps
      ensures LwpOk(t, m)
    {
      assert LwpOk(s, m);
    }
  }

  lemma LwpQuitKeepsInv(s: State, l: Id)
    requires Inv(s) && Enabled(s, LwpQuit(l))
    ensures Inv(Apply(s, LwpQuit(l)))
  {
    hide ProcOk, LwpOk, LooksUp, LwpFreeAll;
    LwpQuitKeepsProcs(s, l);
    LwpQuitKeepsLwps(s, l);
  }

  lemma StepKeepsInv(s: State, step: Step)
    requires Inv(s) && Enabled(s, step)
    ensures Inv(Apply(s, step))
  {
    hide Inv, Enabled, Apply;
    match step
    case Find(pid, p) => FindKeepsInv(s, pid, p);
    case ProcDec(p) => ProcDecKeepsInv(s, p);
    case ProcDecFree(p) => ProcDecFreeKeepsInv(s, p);
    case Add(p, pid) => AddKeepsInv(s, p, pid);
    case Remove(p) => RemoveKeepsInv(s, p);
    case LwpFind(p, l) => LwpFindKeepsInv(s, p, l);
    case LwpDec(l) => LwpDecKeepsInv(s, l);
    case LwpDecFree(l) => LwpDecFreeKeepsInv(s, l);
    case LwpEnum(p, now) => LwpEnumKeepsInv(s, p, now);
    case LwpQuit(l) => LwpQuitKeepsInv(s, l);
  }

  // ---------------------------------------------------------------------------
  // Safety over whole runs

  lemma {:induction false} RunKeepsInv(s: State, run: seq<Step>)
    requires Inv(s) && ValidRun(s, run)
    ensures Inv(After(s, run))
    decreases run
  {
    hide Inv, Enabled, Apply;
    if run != [] {
      StepKeepsInv(s, run[0]);
      RunKeepsInv(Apply(s, run[0]), run[1..]);
    }
  }

  /** Nothing is freed twice, nothing freed is still referenced, and what left the table
      or its list with no thread holding it has been freed exactly once. */
  ghost predicate Sound(s: State) {
    && (forall p :: p in s.procs ==>
          var x := s.procs[p];
          && x.frees <= 1 && x.refs == s.holds[ProcRef(p)]
          && (x.frees == 1 ==> x.refs == 0 && !x.inTable && s.holds[ProcFreeing(p)] == 0 && x.lwps == {})
          && (!x.inTable && x.refs == 0 && s.holds[ProcFreeing(p)] == 0 ==> x.frees == 1))
    && (forall l :: l in s.lwps ==>
          var x := s.lwps[l];
          && x.owner in s.procs && x.frees <= 1 && x.refs == s.holds[LwpRef(l)]
          && (x.frees == 1 ==> x.refs == 0 && s.holds[LwpFreeing(l)] == 0 && !Listed(s, l))
          && (!Listed(s, l) && x.refs == 0 && s.holds[LwpFreeing(l)] == 0 ==> x.frees == 1))
  }

  /** The objects whose memory a step reads or writes. */
  function TouchedProcs(s: State, step: Step): set<Id>
    requires Enabled(s, step)
  {
    match step
    case Find(_, p) => {p} + if s.latest.Some? then {s.latest.value} else {}
    case ProcDec(p) => {p}
    case ProcDecFree(p) => {p}
    case Add(_, _) => {}
    case Remove(p) => {p}
    case LwpFind(p, _) => {p}
    case LwpDec(_) => {}
    case LwpDecFree(_) => {}
    case LwpEnum(p, _) => {p}
    case LwpQuit(_) => {}
  }

  function TouchedLwps(s: State, step: Step): set<Id>
    requires Enabled(s, step)
  {
    match step
    case Find(_, _) => {}
    case ProcDec(_) => {}
    case ProcDecFree(p) => s.procs[p].lwps
    case Add(_, _) => {}
    case Remove(p) => s.procs[p].lwps
    case LwpFind(_, l) => {l}
    case LwpDec(l) => {l}
    case LwpDecFree(l) => {l}
    case LwpEnum(p, _) => s.procs[p].lwps
    case LwpQuit(l) => {l}
  }

  ghost predicate NoUseAfterFree(s: State, step: Step)
    requires Enabled(s, step)
  {
    && (forall p :: p in TouchedProcs(s, step) ==> p in s.procs && s.procs[p].frees == 0)
    && (forall l :: l in TouchedLwps(s, step) ==> l in s.lwps && s.lwps[l].frees == 0)
  }

  lemma InvIsSound(s: State)
    requires Inv(s)
    ensures Sound(s)
  {
    forall p | p in s.procs
      ensures ProcOk(s, p)
    {
    }
    forall l | l in s.lwps
      ensures LwpOk(s, l)
    {
    }
  }

  lemma InvTouchesLive(s: State, step: Step)
    requires Inv(s) && Enabled(s, step)
    ensures NoUseAfterFree(s, step)
  {
    forall p | p in TouchedProcs(s, step)
      ensures p in s.procs && s.procs[p].frees == 0
    {
      assert ProcOk(s, p);
    }
    forall l | l in TouchedLwps(s, step)
      ensures l in s.lwps && s.lwps[l].frees == 0
    {
      if step.ProcDecFree? || step.Remove? || step.LwpEnum? || step.LwpFind? {
        assert ProcOk(s, step.p);
      }
      assert LwpOk(s, l);
    }
  }

  /** Over every interleaving: after any run from the empty group the accounting is
      sound, and no step that can come next uses a freed process or thread. */
  lemma EveryRunIsSafe(run: seq<Step>, next: Step)
    requires ValidRun(INIT, run) && Enabled(After(INIT, run), next)
    ensures Sound(After(INIT, run)) && NoUseAfterFree(After(INIT, run), next)
  {
    hide Enabled, Apply, Sound, NoUseAfterFree, Inv;
    InitInv();
    RunKeepsInv(INIT, run);
    InvIsSound(After(INIT, run));
    InvTouchesLive(After(INIT, run), next);
  }

  lemma InitInv()
    ensures Inv(INIT)
  {
  }

  // ---------------------------------------------------------------------------
  // No reference after `removing`

  /** A marked process stays marked and its references only fall, and likewise a thread. */
  lemma {:induction false} NoGrantAfterRemoving(s: State, run: seq<Step>)
    requires ValidRun(s, run)
    ensures forall p :: p in s.procs && s.procs[p].removing ==>
              var t := After(s, run); p in t.procs && t.procs[p].removing && t.procs[p].refs <= s.procs[p].refs
    ensures forall l :: l in s.lwps && s.lwps[l].removing ==>
              var t := After(s, run); l in t.lwps && t.lwps[l].removing && t.lwps[l].refs <= s.lwps[l].refs
    decreases run
  {
    hide Enabled, Apply;
    if run != [] {
      StepGrantsNothing(s, run[0]);
      NoGrantAfterRemoving(Apply(s, run[0]), run[1..]);
    }
  }

  lemma StepGrantsNothing(s: State, step: Step)
    requires Enabled(s, step)
    ensures var t := Apply(s, step); forall p :: p in s.procs && s.procs[p].removing ==>
              p in t.procs && t.procs[p].removing && t.procs[p].refs <= s.procs[p].refs
    ensures var t := Apply(s, step); forall l :: l in s.lwps && s.lwps[l].removing ==>
              l in t.lwps && t.lwps[l].removing && t.lwps[l].refs <= s.lwps[l].refs
  {
    var t := Apply(s, step);
    forall p | p in s.procs && s.procs[p].removing
      ensures p in t.procs && t.procs[p].removing && t.procs[p].refs <= s.procs[p].refs
    {
      ProcGrantsNothing(s, step, p);
    }
    forall l | l in s.lwps && s.lwps[l].removing
      ensures l in t.lwps && t.lwps[l].removing && t.lwps[l].refs <= s.lwps[l].refs
    {
      LwpGrantsNothing(s, step, l);
    }
  }

  lemma ProcGrantsNothing(s: State, step: Step, p: Id)
    requires Enabled(s, step) && p in s.procs && s.procs[p].removing
    ensures var t := Apply(s, step); p in t.procs && t.procs[p].removing && t.procs[p].refs <= s.procs[p].refs
  {
    match step
    case Find(_, _) =>
    case ProcDec(_) =>
    case ProcDecFree(_) =>
    case Add(_, _) =>
    case Remove(_) =>
    case LwpFind(_, _) =>
    case LwpDec(_) =>
    case LwpDecFree(_) =>
    case LwpEnum(_, _) =>
    case LwpQuit(_) =>
  }

  lemma LwpGrantsNothing(s: State, step: Step, l: Id)
    requires Enabled(s, step) && l in s.lwps && s.lwps[l].removing
    ensures var t := Apply(s, step); l in t.lwps && t.lwps[l].removing && t.lwps[l].refs <= s.lwps[l].refs
  {
    hide *;
    LwpChanges(s, step, l);
  }

  /** Whatever the step, a thread keeps its owner, and if marked or quitting stays so and
      gains no reference. */
  lemma LwpChanges(s: State, step: Step, l: Id)
    requires Enabled(s, step) && l in s.lwps
    ensures var t := Apply(s, step); l in t.lwps && t.lwps[l].owner == s.lwps[l].owner
    ensures var t := Apply(s, step); s.lwps[l].removing ==> t.lwps[l].removing && t.lwps[l].refs <= s.lwps[l].refs
    ensures var t := Apply(s, step); s.lwps[l].quitting ==> t.lwps[l].quitting && t.lwps[l].refs <= s.lwps[l].refs
  {
    if step.Remove? || step.ProcDecFree? || step.LwpEnum? {
      FreeChanges(s, step, l);
    } else if step.LwpFind? || step.LwpDec? || step.LwpDecFree? || step.LwpQuit? {
      OneChanges(s, step, l);
    } else {
      hide LooksUp, ProcFree, LwpFreeAll, LwpFree;
    }
  }

  lemma FreeChanges(s: State, step: Step, l: Id)
    requires step.Remove? || step.ProcDecFree? || step.LwpEnum?
    requires Enabled(s, step) && l in s.lwps
    ensures var t := Apply(s, step); l in t.lwps && t.lwps[l].owner == s.lwps[l].owner
    ensures var t := Apply(s, step); s.lwps[l].removing ==> t.lwps[l].removing && t.lwps[l].refs <= s.lwps[l].refs
    ensures var t := Apply(s, step); s.lwps[l].quitting ==> t.lwps[l].quitting && t.lwps[l].refs <= s.lwps[l].refs
  {
    hide LooksUp;
  }

  lemma OneChanges(s: State, step: Step, l: Id)
    requires step.LwpFind? || step.LwpDec? || step.LwpDecFree? || step.LwpQuit?
    requires Enabled(s, step) && l in s.lwps
    ensures var t := Apply(s, step); l in t.lwps && t.lwps[l].owner == s.lwps[l].owner
    ensures var t := Apply(s, step); s.lwps[l].removing ==> t.lwps[l].removing && t.lwps[l].refs <= s.lwps[l].refs
    ensures var t := Apply(s, step); s.lwps[l].quitting ==> t.lwps[l].quitting && t.lwps[l].refs <= s.lwps[l].refs
  {
    hide LooksUp, ProcFree, LwpFreeAll;
  }

  // ---------------------------------------------------------------------------
  // Both levels together

  /** Every thread reference, and every thread free under way, is inside a reference to
      its process. */
  ghost predicate Nested(s: State) {
    forall l :: l in s.lwps && (LwpRef(l) in s.holds || LwpFreeing(l) in s.holds) ==>
      ProcRef(s.lwps[l].owner) in s.holds
  }

  /** A freed process's threads are all freed if and only if none of them is held. */
  lemma FreedTogetherIff(run: seq<Step>, p: Id)
    requires ValidRun(INIT, run) && p in After(INIT, run).procs && After(INIT, run).procs[p].frees == 1
    ensures var t := After(INIT, run);
            (forall l :: l in t.lwps && t.lwps[l].owner == p ==> t.lwps[l].frees == 1)
            <==> (forall l :: l in t.lwps && t.lwps[l].owner == p ==> LwpRef(l) !in t.holds && LwpFreeing(l) !in t.holds)
  {
    hide Enabled, Apply;
    var t := After(INIT, run);
    InitInv();
    RunKeepsInv(INIT, run);
    InvIsSound(t);
  }

  /** When references nest, freeing a process has freed every one of its threads. */
  lemma FreedTogether(run: seq<Step>, p: Id)
    requires ValidRun(INIT, run) && Nested(After(INIT, run))
    requires p in After(INIT, run).procs && After(INIT, run).procs[p].frees == 1
    ensures var t := After(INIT, run); forall l :: l in t.lwps && t.lwps[l].owner == p ==> t.lwps[l].frees == 1
  {
    hide Enabled, Apply;
    FreedTogetherIff(run, p);
    InitInv();
    RunKeepsInv(INIT, run);
    InvIsSound(After(INIT, run));
  }

  // ---------------------------------------------------------------------------
  // Sampling threads nest

  /** A thread that, like every sampler, finds a process, then a thread in it, and drops
      them in the opposite order. */
  datatype Pc = Idle | HasProc(p: Id) | HasLwp(p: Id, l: Id) | FreesLwp(p: Id, l: Id) | FreesProc(p: Id)

  /** How many references of the kind `h` a thread at `pc` has. */
  function Count(pc: Pc, h: Hold): nat {
    match h
    case ProcRef(p) => if (pc.HasProc? || pc.HasLwp? || pc.FreesLwp?) && pc.p == p then 1 else 0
    case ProcFreeing(p) => if pc == FreesProc(p) then 1 else 0
    case LwpRef(l) => if pc.HasLwp? && pc.l == l then 1 else 0
    case LwpFreeing(l) => if pc.FreesLwp? && pc.l == l then 1 else 0
  }

  function Total(pcs: seq<Pc>, h: Hold): nat {
    if pcs == [] then 0 else Count(pcs[0], h) + Total(pcs[1..], h)
  }

  datatype Sys = Sys(s: State, pcs: seq<Pc>)

  /** Thread `i` may take the step; the refreshing thread's steps are any thread's. */
  predicate May(y: Sys, i: nat, step: Step) {
    && i < |y.pcs| && Enabled(y.s, step)
    && var pc := y.pcs[i];
       match step
       case Find(_, _) => pc == Idle
       case LwpFind(p, _) => pc == HasProc(p)
       case LwpDec(l) => pc.HasLwp? && pc.l == l
       case LwpQuit(l) => pc.HasLwp? && pc.l == l
       case LwpDecFree(l) => pc.FreesLwp? && pc.l == l
       case ProcDec(p) => pc == HasProc(p)
       case ProcDecFree(p) => pc == FreesProc(p)
       case Add(_, _) => true
       case Remove(_) => true
       case LwpEnum(_, _) => true
  }

  function NextPc(s: State, pc: Pc, step: Step): Pc
    requires Enabled(s, step)
  {
    match step
    case Find(_, p) => if s.procs[p].removing then pc else HasProc(p)
    case LwpFind(p, l) => if s.lwps[l].removing || s.lwps[l].quitting then pc else HasLwp(p, l)
    case LwpDec(l) =>
      if !pc.HasLwp? then pc
      else if s.lwps[l].refs == 1 && s.lwps[l].removing then FreesLwp(pc.p, l) else HasProc(pc.p)
    case LwpDecFree(l) => if pc.FreesLwp? then HasProc(pc.p) else pc
    case ProcDec(p) => if s.procs[p].refs == 1 && s.procs[p].removing then FreesProc(p) else Idle
    case ProcDecFree(p) => Idle
    case Add(_, _) => pc
    case Remove(_) => pc
    case LwpEnum(_, _) => pc
    case LwpQuit(_) => pc
  }

  function Move(y: Sys, i: nat, step: Step): Sys
    requires May(y, i, step)
  {
    Sys(Apply(y.s, step), y.pcs[i := NextPc(y.s, y.pcs[i], step)])
  }

  ghost predicate Matches(y: Sys) {
    && (forall h :: y.s.holds[h] == Total(y.pcs, h))
    && forall i :: 0 <= i < |y.pcs| && (y.pcs[i].HasLwp? || y.pcs[i].FreesLwp?) ==>
         y.pcs[i].l in y.s.lwps && y.s.lwps[y.pcs[i].l].owner == y.pcs[i].p
  }

  lemma {:induction false} TotalUpdate(pcs: seq<Pc>, i: nat, pc: Pc, h: Hold)
    requires i < |pcs|
    ensures Count(pcs[i], h) <= Total(pcs, h)
    ensures Total(pcs[i := pc], h) == Total(pcs, h) - Count(pcs[i], h) + Count(pc, h)
  {
    hide Count;
    if i > 0 {
      assert pcs[i := pc][1..] == pcs[1..][i - 1 := pc];
      TotalUpdate(pcs[1..], i - 1, pc, h);
    }
  }

  lemma {:induction false} TotalHas(pcs: seq<Pc>, h: Hold) returns (i: nat)
    requires Total(pcs, h) > 0
    ensures i < |pcs| && Count(pcs[i], h) > 0
  {
    hide Count;
    if Count(pcs[0], h) > 0 {
      i := 0;
    } else {
      i := TotalHas(pcs[1..], h);
      i := i + 1;
    }
  }

  /** A step changes the references held as it changes those of the thread taking it. */
  lemma StepCounts(s: State, pc: Pc, step: Step, h: Hold)
    requires May(Sys(s, [pc]), 0, step)
    ensures Apply(s, step).holds[h] == s.holds[h] - Count(pc, h) + Count(NextPc(s, pc, step), h)
  {
    if step.Find? || step.LwpFind? {
      GrantCounts(s, pc, step, h);
    } else if step.ProcDec? || step.LwpDec? {
      DropCounts(s, pc, step, h);
    } else {
      hide LwpFreeAll, LooksUp;
    }
  }

  lemma GrantCounts(s: State, pc: Pc, step: Step, h: Hold)
    requires (step.Find? || step.LwpFind?) && May(Sys(s, [pc]), 0, step)
    ensures Apply(s, step).holds[h] == s.holds[h] - Count(pc, h) + Count(NextPc(s, pc, step), h)
  {
    hide LwpFreeAll, ProcFree, LwpFree, LooksUp;
  }

  lemma DropCounts(s: State, pc: Pc, step: Step, h: Hold)
    requires (step.ProcDec? || step.LwpDec?) && May(Sys(s, [pc]), 0, step)
    ensures Apply(s, step).holds[h] == s.holds[h] - Count(pc, h) + Count(NextPc(s, pc, step), h)
  {
    hide LwpFreeAll, ProcFree, LwpFree, LooksUp;
  }

  lemma PcOwner(s: State, pc: Pc, step: Step)
    requires Inv(s) && Enabled(s, step) && May(Sys(s, [pc]), 0, step)
    requires pc.HasLwp? || pc.FreesLwp? ==> pc.l in s.lwps && s.lwps[pc.l].owner == pc.p
    ensures var next := NextPc(s, pc, step);
            next.HasLwp? || next.FreesLwp? ==> next.l in s.lwps && s.lwps[next.l].owner == next.p
  {
    if step.LwpFind? {
      FindOwned(s, step.p, step.l);
    }
  }

  lemma MoveMatches(y: Sys, i: nat, step: Step)
    requires Inv(y.s) && Matches(y) && May(y, i, step)
    ensures Matches(Move(y, i, step))
  {
    hide Inv, Enabled, Apply, Total, NextPc, Count;
    var s, z := y.s, Move(y, i, step);
    forall h
      ensures z.s.holds[h] == Total(z.pcs, h)
    {
      TotalUpdate(y.pcs, i, NextPc(s, y.pcs[i], step), h);
      StepCounts(s, y.pcs[i], step, h);
    }
    PcOwner(s, y.pcs[i], step);
    forall j | 0 <= j < |z.pcs| && (z.pcs[j].HasLwp? || z.pcs[j].FreesLwp?)
      ensures z.pcs[j].l in z.s.lwps && z.s.lwps[z.pcs[j].l].owner == z.pcs[j].p
    {
      assert z.pcs[j].l in s.lwps;
      LwpChanges(s, step, z.pcs[j].l);
    }
  }

  lemma FindOwned(s: State, p: Id, l: Id)
    requires Inv(s) && Enabled(s, LwpFind(p, l))
    ensures s.lwps[l].owner == p
  {
    assert ProcOk(s, p);
  }

  lemma MatchesNest(y: Sys)
    requires Inv(y.s) && Matches(y)
    ensures Nested(y.s)
  {
    hide Inv;
    forall l | l in y.s.lwps && (LwpRef(l) in y.s.holds || LwpFreeing(l) in y.s.holds)
      ensures ProcRef(y.s.lwps[l].owner) in y.s.holds
    {
      var i := TotalHas(y.pcs, if LwpRef(l) in y.s.holds then LwpRef(l) else LwpFreeing(l));
      TotalUpdate(y.pcs, i, Idle, ProcRef(y.pcs[i].p));
    }
  }

  ghost predicate ValidMoves(y: Sys, moves: seq<(nat, Step)>)
    decreases moves
  {
    moves == [] || (May(y, moves[0].0, moves[0].1) && ValidMoves(Move(y, moves[0].0, moves[0].1), moves[1..]))
  }

  ghost function Moved(y: Sys, moves: seq<(nat, Step)>): Sys
    requires ValidMoves(y, moves)
    decreases moves
  {
    if moves == [] then y else Moved(Move(y, moves[0].0, moves[0].1), moves[1..])
  }

  lemma {:induction false} MovesKeep(y: Sys, moves: seq<(nat, Step)>)
    requires Inv(y.s) && Matches(y) && ValidMoves(y, moves)
    ensures Inv(Moved(y, moves).s) && Matches(Moved(y, moves))
    decreases moves
  {
    hide Inv, Matches, Enabled, Apply;
    if moves != [] {
      StepKeepsInv(y.s, moves[0].1);
      MoveMatches(y, moves[0].0, moves[0].1);
      MovesKeep(Move(y, moves[0].0, moves[0].1), moves[1..]);
    }
  }

  lemma {:induction false} IdleTotal(n: nat, h: Hold)
    ensures Total(seq(n, _ => Idle), h) == 0
  {
    if n > 0 {
      assert seq(n, _ => Idle)[1..] == seq(n - 1, _ => Idle);
      IdleTotal(n - 1, h);
    }
  }

  /** Any number of sampling threads beside any refreshes: once a process is freed, so
      is every one of its threads. */
  lemma SamplersFreeTogether(n: nat, moves: seq<(nat, Step)>, p: Id)
    requires var y := Sys(INIT, seq(n, _ => Idle));
             ValidMoves(y, moves) && p in Moved(y, moves).s.procs && Moved(y, moves).s.procs[p].frees == 1
    ensures var t := Moved(Sys(INIT, seq(n, _ => Idle)), moves).s;
            forall l :: l in t.lwps && t.lwps[l].owner == p ==> t.lwps[l].frees == 1
  {
    hide Enabled, Apply, Moved, ValidMoves;
    var y := Sys(INIT, seq(n, _ => Idle));
    forall h
      ensures Total(y.pcs, h) == 0
    {
      IdleTotal(n, h);
    }
    InitInv();
    MovesKeep(y, moves);
    MatchesNest(Moved(y, moves));
    InvIsSound(Moved(y, moves).s);
  }
}
