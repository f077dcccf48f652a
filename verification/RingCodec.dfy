/**
 The records the kernel writes into the ring, as 8-byte words, and the proof that the
 reader of module Ring inverts them wherever they lie in the ring.
 */
module RingCodec {
  import opened Basics
  import opened Ring

  datatype Record =
    | Sampled(misc: nat, pid: nat, tid: nat, te: nat, tr: nat, cntr: seq<nat>, ips: seq<nat>)
    | Other(kind: nat, misc: nat, body: seq<nat>)

  predicate AllWords(w: seq<nat>) {
    forall i :: 0 <= i < |w| ==> w[i] < TWO64
  }

  /** Sizes are multiples of 8 and above 8 by construction. */
  predicate WellFormed(r: Record) {
    && r.misc < TWO16 && 8 + 8 * |Payload(r)| < TWO16 && AllWords(Payload(r))
    && match r
       case Sampled(_, pid, tid, te, tr, cntr, ips) =>
         pid < TWO32 && tid < TWO32 && |cntr| <= PERF_COUNT_NUM
       case Other(kind, _, body) =>
         kind < TWO32 && kind != PERF_RECORD_SAMPLE && body != []
  }

  function Header(kind: nat, misc: nat, size: nat): nat {
    kind + TWO32 * misc + TWO48 * size
  }

  function Payload(r: Record): seq<nat> {
    match r
    case Sampled(_, pid, tid, te, tr, cntr, ips) =>
      [pid + TWO32 * tid, |cntr|, te, tr] + cntr + [|ips|] + ips
    case Other(_, _, body) => body
  }

  function Encode(r: Record): (w: seq<nat>)
    ensures |w| == 1 + |Payload(r)|
  {
    [Header(if r.Sampled? then PERF_RECORD_SAMPLE else r.kind, r.misc, 8 + 8 * |Payload(r)|)] + Payload(r)
  }

  function EncodeAll(recs: seq<Record>): seq<nat> {
    if recs == [] then [] else Encode(recs[0]) + EncodeAll(recs[1..])
  }

  lemma HeaderFields(kind: nat, misc: nat, size: nat)
    requires kind < TWO32 && misc < TWO16
    ensures Header(kind, misc, size) / TWO48 == size
    ensures Header(kind, misc, size) % TWO32 == kind
  {
    var h := Header(kind, misc, size);
    HighPart(kind + TWO32 * misc, size);
    assert h == kind + TWO32 * (misc + TWO16 * size);
    LowPart(kind, misc + TWO16 * size);
  }

  lemma HighPart(low: nat, high: nat)
    requires low < TWO48
    ensures (low + TWO48 * high) / TWO48 == high
  {
  }

  lemma LowPart(low: nat, high: nat)
    requires low < TWO32
    ensures (low + TWO32 * high) % TWO32 == low
  {
  }

  // ---------------------------------------------------------------------------
  // What should be delivered

  function UserIps(ips: seq<nat>): (u: seq<nat>)
    ensures |u| <= |ips|
  {
    if ips == [] then []
    else if IsUserspace(ips[0]) then [ips[0]] + UserIps(ips[1..])
    else UserIps(ips[1..])
  }

  function FirstIps(u: seq<nat>): seq<nat> {
    if |u| <= IP_NUM then u else u[..IP_NUM]
  }

  /** The record a sample should become, given the counters left by the one before. */
  function Delivered(r: Record, prev: Rec, scale: Scale): (d: Rec)
    requires r.Sampled? && |r.cntr| <= |prev.counts|
    ensures |d.counts| == |prev.counts|
  {
    Rec(r.pid, r.tid, Overlay(prev.counts, r.cntr, r.te, r.tr, scale), FirstIps(UserIps(r.ips)))
  }

  /** A delivered record has the sample's ids; each counter the sample carries is scaled
      by its two times, the others are left from before; and of its addresses it has the
      first 32 below the kernel's. */
  lemma DeliveredIs(r: Record, prev: Rec, scale: Scale)
    requires r.Sampled? && |r.cntr| <= |prev.counts|
    ensures var d := Delivered(r, prev, scale);
            && d.pid == r.pid && d.tid == r.tid
            && (forall i :: 0 <= i < |r.cntr| ==> d.counts[i] == scale(r.cntr[i], r.te, r.tr))
            && (forall i :: |r.cntr| <= i < |prev.counts| ==> d.counts[i] == prev.counts[i])
            && d.ips <= UserIps(r.ips) && |d.ips| <= 32 && (|d.ips| < 32 ==> d.ips == UserIps(r.ips))
            && forall x :: x in UserIps(r.ips) <==> x in r.ips && x < 0xFFFF_FFFF_8000_0000
  {
    hide Overlay;
    UserIpsAre(r.ips);
    CountsAre(prev.counts, r.cntr, r.te, r.tr, scale);
  }

  lemma CountsAre(counts: seq<nat>, cntr: seq<nat>, te: nat, tr: nat, scale: Scale)
    requires |cntr| <= |counts|
    ensures var c := Overlay(counts, cntr, te, tr, scale);
            && (forall i :: 0 <= i < |cntr| ==> c[i] == scale(cntr[i], te, tr))
            && (forall i :: |cntr| <= i < |counts| ==> c[i] == counts[i])
  {
  }

  /** User-space addresses are kept in order, as often as they come, and no others. */
  lemma {:induction false} UserIpsAre(ips: seq<nat>)
    ensures forall x: nat :: multiset(UserIps(ips))[x] == if x < 0xFFFF_FFFF_8000_0000 then multiset(ips)[x] else 0
    ensures forall x :: x in UserIps(ips) <==> x in ips && x < 0xFFFF_FFFF_8000_0000
  {
    if ips != [] {
      UserIpsAre(ips[1..]);
      assert ips == [ips[0]] + ips[1..];
    }
  }

  lemma {:induction false} UserIpsAppend(a: seq<nat>, b: seq<nat>)
    ensures UserIps(a + b) == UserIps(a) + UserIps(b)
  {
    if a == [] {
      assert a + b == b;
    } else {
      assert (a + b)[1..] == a[1..] + b;
      UserIpsAppend(a[1..], b);
    }
  }

  predicate AllWellFormed(recs: seq<Record>) {
    forall i :: 0 <= i < |recs| ==> WellFormed(recs[i])
  }

  /** In order, every sample with nonzero pid and tid. */
  function Expected(recs: seq<Record>, keep: bool, prev: Rec, scale: Scale): seq<Rec>
    requires AllWellFormed(recs) && |prev.counts| == PERF_COUNT_NUM
  {
    if recs == [] then []
    else if recs[0].Sampled? && keep then
      var d := Delivered(recs[0], prev, scale);
      (if Accepted(d) then [d] else []) + Expected(recs[1..], keep, d, scale)
    else Expected(recs[1..], keep, prev, scale)
  }

  predicate Wanted(r: Record) {
    r.Sampled? && r.pid != 0 && r.tid != 0
  }

  /** The reader leaves this record by a skip: it discards it, or it has its 32
      user-space addresses before the last one. */
  predicate NeedsSkip(r: Record, keep: bool) {
    !(r.Sampled? && keep) || (r.ips != [] && |UserIps(r.ips[..|r.ips| - 1])| >= IP_NUM)
  }

  /** An odd multiple of 2^31 lies above `end` and not above `head`. */
  predicate Straddles(end: nat, head: nat) {
    Window(end) != Window(head)
  }

  /** The records the reader gets to: a skip that straddles jumps to the head. */
  function Survivors(recs: seq<Record>, tail: nat, head: nat, keep: bool): (s: seq<Record>)
    ensures s <= recs
  {
    if recs == [] then []
    else
      var end := tail + 8 * |Encode(recs[0])|;
      [recs[0]] + if NeedsSkip(recs[0], keep) && Straddles(end, head) then []
                  else Survivors(recs[1..], end, head, keep)
  }

  // ---------------------------------------------------------------------------
  // The reader inverts the encoder

  lemma {:induction false} ScanIpsSpec(w: seq<nat>, nr: nat, got: seq<nat>)
    requires nr <= |w| && |got| <= IP_NUM
    ensures var s := ScanIps(w, nr, got);
            && s.ok && s.ips == FirstIps(got + UserIps(w[..nr]))
            && (s.used < nr <==> nr > 0 && |got| + |UserIps(w[..nr - 1])| >= IP_NUM)
    decreases nr
  {
    if nr == 0 {
      assert got + UserIps([]) == got;
    } else if |got| == IP_NUM {
      assert (got + UserIps(w[..nr]))[..IP_NUM] == got;
    } else {
      var got' := if IsUserspace(w[0]) then got + [w[0]] else got;
      ScanIpsSpec(w[1..], nr - 1, got');
      assert w[..nr][1..] == w[1..][..nr - 1];
      assert got' + UserIps(w[1..][..nr - 1]) == got + UserIps(w[..nr]);
      if nr > 1 {
        assert w[..nr - 1][1..] == w[1..][..nr - 2];
      }
    }
  }

  lemma SampleDecodes(r: Record, rest: seq<nat>, prev: Rec, scale: Scale)
    requires WellFormed(r) && r.Sampled? && |prev.counts| == PERF_COUNT_NUM
    ensures var b := SampleBody(Payload(r) + rest, prev, scale);
            && b.ok && b.skip && b.rec == Delivered(r, prev, scale)
            && b.used <= |Payload(r)|
            && (b.used < |Payload(r)| <==> NeedsSkip(r, true))
  {
    hide PidOf, TidOf, UserIps, FirstIps, Overlay, ScanIps;
    var nr := |r.cntr|;
    PayloadSlices(r, rest);
    var chain := (Payload(r) + rest)[4..][nr..];
    ScanIpsSpec(chain[1..], |r.ips|, []);
    assert chain[1..][..|r.ips|] == r.ips;
    assert [] + UserIps(r.ips) == UserIps(r.ips);
    if r.ips != [] {
      assert chain[1..][..|r.ips| - 1] == r.ips[..|r.ips| - 1];
    }
    IdFields(r.pid, r.tid);
  }

  lemma PayloadSlices(r: Record, rest: seq<nat>)
    requires r.Sampled?
    ensures var w, nr := Payload(r) + rest, |r.cntr|;
            && |w| >= 5 + nr
            && w[0] == r.pid + TWO32 * r.tid && w[1] == nr && w[2] == r.te && w[3] == r.tr
            && w[4..][..nr] == r.cntr
            && w[4..][nr..][0] == |r.ips| && w[4..][nr..][1..] == r.ips + rest
  {
    var w, nr := Payload(r) + rest, |r.cntr|;
    var fixed, chain := [r.pid + TWO32 * r.tid, nr, r.te, r.tr], [|r.ips|] + (r.ips + rest);
    assert w == fixed + (r.cntr + chain);
    assert w[4..] == r.cntr + chain;
  }

  lemma IdFields(pid: nat, tid: nat)
    requires pid < TWO32
    ensures PidOf(pid + TWO32 * tid) == pid && TidOf(pid + TWO32 * tid) == tid
  {
  }

  /** A skip ending at `end` loses the rest of the ring exactly when it straddles. */
  lemma SkipExact(tail: nat, size: nat, head: nat)
    requires tail + size <= head < tail + TWO31
    ensures SkipTarget(tail, size, head) == if Straddles(tail + size, head) then head else tail + size
  {
    var end := tail + size;
    SkipMoves(tail, size, head);
    var q, p := Window(end), Window(head);
    assert end + TWO31 == TWO32 * q + (end + TWO31) % TWO32;
    assert head + TWO31 == TWO32 * p + (head + TWO31) % TWO32;
  }

  /** One turn of the drain's loop on an encoded record. */
  lemma OneRecordDecodes(r: Record, rest: seq<nat>, tail: nat, keep: bool, prev: Rec, scale: Scale)
    requires WellFormed(r) && |prev.counts| == PERF_COUNT_NUM
    requires 8 * |Encode(r) + rest| < TWO31
    ensures var end, head := tail + 8 * |Encode(r)|, tail + 8 * |Encode(r) + rest|;
            var s := OneRecord(Encode(r) + rest, tail, keep, prev, scale);
            && s.Next?
            && s.tail == (if NeedsSkip(r, keep) && Straddles(end, head) then head else end)
            && s.rec == (if r.Sampled? && keep then Delivered(r, prev, scale) else prev)
            && s.out == (if keep && Wanted(r) then [s.rec] else [])
  {
    hide S32, Window, SampleBody, SkipTarget, UserIps, Delivered;
    var w := Encode(r) + rest;
    var size := 8 * |Payload(r)|;
    HeaderFields(if r.Sampled? then PERF_RECORD_SAMPLE else r.kind, r.misc, 8 + size);
    assert w[1..] == Payload(r) + rest;
    if r.Sampled? && keep {
      SampleDecodes(r, rest, prev, scale);
      AcceptedIsWanted(r, prev, scale);
      var b := SampleBody(w[1..], prev, scale);
      if b.used < |Payload(r)| {
        SkipExact(tail + 8 + 8 * b.used, size - 8 * b.used, tail + 8 * |w|);
      }
    } else {
      SkipExact(tail + 8, size, tail + 8 * |w|);
    }
  }

  /** Every drain of encoded records ends with tail = head and delivers exactly what
      is wanted of the records it gets to. */
  lemma {:induction false} DrainDecodes(recs: seq<Record>, tail: nat, keep: bool, prev: Rec, scale: Scale)
    requires AllWellFormed(recs) && |prev.counts| == PERF_COUNT_NUM
    requires 8 * |EncodeAll(recs)| < TWO31
    ensures var head := tail + 8 * |EncodeAll(recs)|;
            var out := Expected(Survivors(recs, tail, head, keep), keep, prev, scale);
            Drain(EncodeAll(recs), tail, keep, prev, scale) == DrainOut(out, head, true)
  {
    hide OneRecord, Encode, WellFormed, Window, Delivered, Resume, Drain, Survivors, Expected, NeedsSkip, Straddles;
    var w := EncodeAll(recs);
    var head := tail + 8 * |w|;
    if recs == [] {
      DrainEmpty(tail, keep, prev, scale);
      NoneSurvive(tail, head, keep, prev, scale);
    } else {
      var r, rest, n := recs[0], EncodeAll(recs[1..]), |Encode(recs[0])|;
      var end := tail + 8 * n;
      OneRecordDecodes(r, rest, tail, keep, prev, scale);
      DrainUnfold(w, tail, keep, prev, scale);
      var s := OneRecord(w, tail, keep, prev, scale);
      assert w[n..] == rest;
      FirstSurvives(recs, tail, head, keep, prev, scale);
      if s.tail == end {
        DrainDecodes(recs[1..], end, keep, s.rec, scale);
        DrainEmpty(end, keep, s.rec, scale);
      } else {
        NoneSurvive(tail, head, keep, s.rec, scale);
      }
      AcceptedIsWanted(r, prev, scale);
    }
  }

  lemma NoneSurvive(tail: nat, head: nat, keep: bool, prev: Rec, scale: Scale)
    requires |prev.counts| == PERF_COUNT_NUM
    ensures Survivors([], tail, head, keep) == [] && Expected([], keep, prev, scale) == []
  {
  }

  /** What survives of a stream and what is expected of it, one record at a time. */
  lemma FirstSurvives(recs: seq<Record>, tail: nat, head: nat, keep: bool, prev: Rec, scale: Scale)
    requires recs != [] && AllWellFormed(recs) && |prev.counts| == PERF_COUNT_NUM
    ensures var r, end := recs[0], tail + 8 * |Encode(recs[0])|;
            var later := if NeedsSkip(r, keep) && Straddles(end, head) then [] else Survivors(recs[1..], end, head, keep);
            && (Straddles(end, head) ==> end != head)
            && AllWellFormed(later)
            && Survivors(recs, tail, head, keep) == [r] + later
            && Expected([r] + later, keep, prev, scale) ==
                 if r.Sampled? && keep then
                   var d := Delivered(r, prev, scale);
                   (if Accepted(d) then [d] else []) + Expected(later, keep, d, scale)
                 else Expected(later, keep, prev, scale)
  {
    hide WellFormed, Encode, Delivered, Accepted, NeedsSkip;
    var r, end := recs[0], tail + 8 * |Encode(recs[0])|;
    var later := if NeedsSkip(r, keep) && Straddles(end, head) then [] else Survivors(recs[1..], end, head, keep);
    assert ([r] + later)[1..] == later;
  }

  lemma AcceptedIsWanted(r: Record, prev: Rec, scale: Scale)
    requires WellFormed(r) && |prev.counts| == PERF_COUNT_NUM
    ensures r.Sampled? ==> (Accepted(Delivered(r, prev, scale)) <==> Wanted(r))
  {
  }

  // ---------------------------------------------------------------------------
  // Any words whatever

  /** Within a window a skip goes where it is asked to, but no further than the head. */
  lemma SkipInWindow(tail: nat, size: nat, head: nat)
    requires tail <= head < tail + TWO31 && size < TWO16 && Window(tail) == Window(head + TWO16)
    ensures SkipTarget(tail, size, head) == if tail + size > head then head else tail + size
  {
    var q := Window(tail);
    SkipMoves(tail, size, head);
    assert tail + TWO31 == TWO32 * q + (tail + TWO31) % TWO32;
    assert head + TWO16 + TWO31 == TWO32 * q + (head + TWO16 + TWO31) % TWO32;
    InWindow(tail, tail + size, head + TWO16, q);
    InWindow(tail, head, head + TWO16, q);
  }

  lemma InWindow(lo: nat, x: nat, hi: nat, q: int)
    requires lo <= x <= hi && TWO32 * q <= lo + TWO31 && hi + TWO31 < TWO32 * q + TWO32
    ensures S32(x) == x - TWO32 * q
  {
    assert (x + TWO31) / TWO32 == q;
  }

  /** A sample that can not be read has used up all words. */
  lemma BodyEnds(w: seq<nat>, prev: Rec, scale: Scale)
    requires |prev.counts| == PERF_COUNT_NUM
    ensures var b := SampleBody(w, prev, scale); !b.ok && b.sane ==> b.used == |w|
  {
    hide ScanIps, Overlay, PidOf, TidOf;
  }

  lemma SampleMoves(w: seq<nat>, tail: nat, size: nat, prev: Rec, scale: Scale)
    requires |prev.counts| == PERF_COUNT_NUM && size < TWO16 && size % 8 == 0
    requires 8 * |w| < TWO31 && Window(tail) == Window(tail + 8 * |w| + TWO16)
    ensures var s, head := Sample(w, tail, size, prev, scale), tail + 8 * |w|;
            && (s.ok ==> tail <= s.tail <= head && s.tail % 8 == tail % 8)
            && (!s.ok && s.sane ==> s.tail == head)
  {
    hide SampleBody, SkipTarget, Window;
    var b := SampleBody(w, prev, scale);
    var next, head := tail + 8 * b.used, tail + 8 * |w|;
    BodyEnds(w, prev, scale);
    if b.skip && size - 8 * b.used > 0 {
      WindowBetween(tail, next, head + TWO16);
      SkipInWindow(next, size - 8 * b.used, head);
    }
  }

  /** One turn, whatever the words: it stops at the head, or at a size that resets, or
      moves on by whole words and not past the head. */
  lemma OneRecordMoves(w: seq<nat>, tail: nat, keep: bool, prev: Rec, scale: Scale)
    requires w != [] && |prev.counts| == PERF_COUNT_NUM && 8 * |w| < TWO31 && Window(tail) == Window(tail + 8 * |w| + TWO16)
    requires AllWords(w)
    ensures var s, head := OneRecord(w, tail, keep, prev, scale), tail + 8 * |w|;
            && (s.Stop? && s.sane ==> s.tail == if w[0] / TWO48 <= 8 then ResetTarget(head) else head)
            && (s.Next? ==> tail + 8 <= s.tail <= head && s.tail % 8 == tail % 8)
  {
    hide Sample, SkipTarget, Window, ResetTarget, Accepted;
    var size: int := w[0] / TWO48 - 8;
    if size > 0 && size % 8 == 0 {
      WindowBetween(tail, tail + 8, tail + 8 * |w| + TWO16);
      if w[0] % TWO32 == PERF_RECORD_SAMPLE && keep {
        SampleMoves(w[1..], tail + 8, size, prev, scale);
      } else {
        SkipInWindow(tail + 8, size, tail + 8 * |w|);
      }
    }
  }

  /** Whatever words lie between tail and head, even cut off or mangled, in one window a
      drain ends at the head, unless a record's size is too small for one: then it ends
      where a reset does. */
  lemma {:induction false} DrainEnds(w: seq<nat>, tail: nat, keep: bool, prev: Rec, scale: Scale)
    requires |prev.counts| == PERF_COUNT_NUM && 8 * |w| < TWO31 && Window(tail) == Window(tail + 8 * |w| + TWO16)
    requires AllWords(w) && Drain(w, tail, keep, prev, scale).sane
    ensures var d, head := Drain(w, tail, keep, prev, scale), tail + 8 * |w|;
            d.tail == head || (d.tail == ResetTarget(head) && exists k :: 0 <= k < |w| && w[k] / TWO48 <= 8)
    decreases |w|
  {
    hide OneRecord, Drain, Resume, Window, ResetTarget;
    if w == [] {
      DrainEmpty(tail, keep, prev, scale);
    } else {
      DrainUnfold(w, tail, keep, prev, scale);
      OneRecordMoves(w, tail, keep, prev, scale);
      var s := OneRecord(w, tail, keep, prev, scale);
      if s.Next? && s.tail < tail + 8 * |w| {
        var n := (s.tail - tail) / 8;
        assert s.tail == tail + 8 * n;
        WindowBetween(tail, s.tail, tail + 8 * |w| + TWO16);
        DrainEnds(w[n..], s.tail, keep, s.rec, scale);
        if k :| 0 <= k < |w[n..]| && w[n..][k] / TWO48 <= 8 {
          assert w[n + k] / TWO48 <= 8;
        }
      }
    }
  }

  lemma WindowBetween(lo: nat, x: nat, hi: nat)
    requires lo <= x <= hi && Window(lo) == Window(hi)
    ensures Window(x) == Window(hi)
  {
  }

  /** A record whose size is too small for one ends the drain with nothing delivered; the
      reset gets to the head if and only if the head fits a C `int`. */
  lemma TooSmallResets(w: seq<nat>, tail: nat, keep: bool, prev: Rec, scale: Scale)
    requires |prev.counts| == PERF_COUNT_NUM && w != [] && w[0] / TWO48 <= 8 && tail + 8 * |w| < TWO64
    ensures var d, head := Drain(w, tail, keep, prev, scale), tail + 8 * |w|;
            d.recs == [] && d.sane && (d.tail == head <==> head < TWO31 || head >= TWO64 - TWO31)
  {
    hide Resume, Sample, SkipTarget, ResetTarget;
    ResetExact(tail + 8 * |w|);
  }

  // ---------------------------------------------------------------------------
  // When nothing is lost

  lemma {:induction false} SurviveInWindow(recs: seq<Record>, tail: nat, head: nat, keep: bool)
    requires head == tail + 8 * |EncodeAll(recs)| && Window(tail) == Window(head)
    ensures Survivors(recs, tail, head, keep) == recs
  {
    if recs != [] {
      SurviveInWindow(recs[1..], tail + 8 * |Encode(recs[0])|, head, keep);
    }
  }

  /** The counters left behind after `recs`. */
  function Left(recs: seq<Record>, prev: Rec, scale: Scale): (r: Rec)
    requires AllWellFormed(recs) && |prev.counts| == PERF_COUNT_NUM
    ensures |r.counts| == PERF_COUNT_NUM
  {
    if recs == [] then prev
    else Left(recs[1..], if recs[0].Sampled? then Delivered(recs[0], prev, scale) else prev, scale)
  }

  lemma {:induction false} ExpectedAppend(a: seq<Record>, b: seq<Record>, prev: Rec, scale: Scale)
    requires AllWellFormed(a + b) && AllWellFormed(a) && AllWellFormed(b) && |prev.counts| == PERF_COUNT_NUM
    ensures Expected(a + b, true, prev, scale)
         == Expected(a, true, prev, scale) + Expected(b, true, Left(a, prev, scale), scale)
  {
    hide Accepted, Payload, Overlay, UserIps;
    if a == [] {
      assert a + b == b;
    } else {
      assert (a + b)[1..] == a[1..] + b;
      var next := if a[0].Sampled? then Delivered(a[0], prev, scale) else prev;
      ExpectedAppend(a[1..], b, next, scale);
    }
  }

  lemma {:induction false} ExpectedEmpty(recs: seq<Record>, prev: Rec, scale: Scale)
    requires AllWellFormed(recs) && |prev.counts| == PERF_COUNT_NUM
    ensures Expected(recs, true, prev, scale) == [] <==> forall r :: r in recs ==> !Wanted(r)
  {
    if recs != [] {
      AcceptedIsWanted(recs[0], prev, scale);
      assert recs[0] in recs;
      assert forall r :: r in recs <==> r == recs[0] || r in recs[1..];
      ExpectedEmpty(recs[1..], if recs[0].Sampled? then Delivered(recs[0], prev, scale) else prev, scale);
    }
  }

  /** A drain delivers everything wanted if and only if no wanted sample follows the
      first record whose skip straddles. */
  lemma LosslessIff(recs: seq<Record>, tail: nat, prev: Rec, scale: Scale)
    requires AllWellFormed(recs) && |prev.counts| == PERF_COUNT_NUM
    requires 8 * |EncodeAll(recs)| < TWO31
    ensures var head := tail + 8 * |EncodeAll(recs)|;
            var got := |Survivors(recs, tail, head, true)|;
            Drain(EncodeAll(recs), tail, true, prev, scale).recs == Expected(recs, true, prev, scale)
            <==> forall r :: r in recs[got..] ==> !Wanted(r)
  {
    hide Drain, Expected, Survivors, EncodeAll, Left, WellFormed;
    var head := tail + 8 * |EncodeAll(recs)|;
    var s := Survivors(recs, tail, head, true);
    var lost := recs[|s|..];
    assert recs == s + lost;
    DrainDecodes(recs, tail, true, prev, scale);
    ExpectedAppend(s, lost, prev, scale);
    ExpectedEmpty(lost, Left(s, prev, scale), scale);
  }

  /** A sample is lost: an unrelated record ends just below 2^31, the head lies above. */
  lemma StraddleLoses(prev: Rec, scale: Scale) returns (recs: seq<Record>)
    requires |prev.counts| == PERF_COUNT_NUM
    ensures AllWellFormed(recs) && 8 * |EncodeAll(recs)| < TWO31
    ensures |Expected(recs, true, prev, scale)| == 1
    ensures Drain(EncodeAll(recs), TWO31 - 24, true, prev, scale).recs == []
  {
    var other, sample := Other(2, 0, [0]), Sampled(0, 7, 7, 0, 0, [], []);
    recs := [other, sample];
    var head := TWO31 - 24 + 8 * |EncodeAll(recs)|;
    assert EncodeAll(recs[1..][1..]) == [];
    assert EncodeAll(recs) == Encode(other) + Encode(sample);
    assert Window(TWO31 - 8) == 0 && Window(head) == 1;
    var s := Survivors(recs, TWO31 - 24, head, true);
    assert s == [other];
    DrainDecodes(recs, TWO31 - 24, true, prev, scale);
    assert Expected(s[1..], true, prev, scale) == [];
    var d := Delivered(sample, prev, scale);
    assert Expected(recs[1..][1..], true, d, scale) == [];
    assert Expected(recs[1..], true, prev, scale) == [d];
  }

  // ---------------------------------------------------------------------------
  // Bytes in the ring

  function BytesOf(w: seq<nat>): (b: seq<Byte>)
    ensures |b| == 8 * |w|
  {
    if w == [] then [] else ToBytes(w[0], 8) + BytesOf(w[1..])
  }

  /** The bytes of `w` lie in the ring from slot k on, wrapping at its end. */
  ghost predicate Stored(mem: seq<Byte>, k: nat, w: seq<nat>) {
    |mem| > 0 && forall i :: 0 <= i < 8 * |w| ==> mem[(8 * k + i) % |mem|] == BytesOf(w)[i]
  }

  lemma {:induction false} StoredReads(mem: seq<Byte>, slots: nat, k: nat, w: seq<nat>)
    requires |mem| == 8 * slots && Stored(mem, k, w) && AllWords(w)
    ensures WordsFrom(mem, k, |w|) == w
    decreases |w|
  {
    hide WordAt, Pow256;
    if w != [] {
      StoredWord(mem, slots, k, w);
      forall i | 0 <= i < 8 * |w[1..]|
        ensures mem[(8 * (k + 1) + i) % |mem|] == BytesOf(w[1..])[i]
      {
        assert 8 * (k + 1) + i == 8 * k + (i + 8);
        assert BytesOf(w)[i + 8] == BytesOf(w[1..])[i];
      }
      StoredReads(mem, slots, k + 1, w[1..]);
    }
  }

  lemma StoredWord(mem: seq<Byte>, slots: nat, k: nat, w: seq<nat>)
    requires |mem| == 8 * slots && Stored(mem, k, w) && w != [] && w[0] < TWO64
    ensures WordAt(mem, k) == w[0]
  {
    hide ToBytes, FromBytes;
    var t := 8 * k % |mem|;
    RingRoom(|mem|, slots, k);
    forall i | 0 <= i < 8
      ensures mem[t + i] == ToBytes(w[0], 8)[i]
    {
      SmallStep(8 * k, i, |mem|);
      assert BytesOf(w)[i] == ToBytes(w[0], 8)[i];
    }
    assert mem[t..t + 8] == ToBytes(w[0], 8);
    assert Pow256(8) == TWO64;
    BytesRoundTrip(w[0], 8);
  }

  lemma SmallStep(p: nat, i: nat, n: nat)
    requires n > 0 && p % n + i < n
    ensures (p + i) % n == p % n + i
  {
    var q, r := p / n, p % n + i;
    var q', r' := (p + i) / n, (p + i) % n;
    assert n * q + r == n * q' + r';
    if q < q' {
      Grows(n, q, q');
    } else if q' < q {
      Grows(n, q', q);
    }
  }

  lemma {:induction false} Grows(n: nat, a: nat, b: nat)
    requires a < b
    ensures n * a + n <= n * b
    decreases b
  {
    if a + 1 < b {
      Grows(n, a, b - 1);
    }
  }

  lemma {:induction false} EncodedAreWords(recs: seq<Record>)
    requires AllWellFormed(recs)
    ensures AllWords(EncodeAll(recs))
  {
    if recs != [] {
      var r := recs[0];
      EncodedAreWords(recs[1..]);
      var w := Encode(r);
      assert forall i :: 1 <= i < |w| ==> w[i] == Payload(r)[i - 1];
      assert AllWords(w);
    }
  }

  /** The ring round trip on the mapped page: whatever records the kernel stored between
      tail and head, wherever they wrap, one drain ends with tail = head and stores in
      order what is wanted of the records before a straddling skip. */
  method ReadBack(page: MmapPage, recArr: array<Rec>, stack: Rec, scale: Scale, ghost recs: seq<Record>)
    returns (nrec: nat)
    requires page.Valid() && page.slot <= page.headSlot && |stack.counts| == PERF_COUNT_NUM
    requires AllWellFormed(recs) && |EncodeAll(recs)| == page.headSlot - page.slot
    requires Stored(page.data[..], page.slot, EncodeAll(recs))
    requires |Expected(Survivors(recs, page.dataTail, page.dataHead, true), true, stack, scale)| <= recArr.Length
    modifies page`dataTail, page`slot, recArr
    ensures page.dataTail == page.dataHead && nrec <= recArr.Length
    ensures recArr[..nrec] == Expected(Survivors(recs, old(page.dataTail), page.dataHead, true), true, stack, scale)
  {
    hide WordsFrom, Drain, Expected, EncodeAll, Survivors, WellFormed, BytesOf;
    EncodedAreWords(recs);
    StoredReads(page.data[..], page.nslots, page.slot, EncodeAll(recs));
    DrainDecodes(recs, page.dataTail, true, stack, scale);
    assert page.Unread() == EncodeAll(recs);
    nrec := page.Record(recArr, stack, scale);
  }

  /** With tail and head in one window, that is everything wanted. */
  method ReadBackInWindow(page: MmapPage, recArr: array<Rec>, stack: Rec, scale: Scale, ghost recs: seq<Record>)
    returns (nrec: nat)
    requires page.Valid() && page.slot <= page.headSlot && |stack.counts| == PERF_COUNT_NUM
    requires AllWellFormed(recs) && |EncodeAll(recs)| == page.headSlot - page.slot
    requires Stored(page.data[..], page.slot, EncodeAll(recs))
    requires Window(page.dataTail) == Window(page.dataHead)
    requires |Expected(recs, true, stack, scale)| <= recArr.Length
    modifies page`dataTail, page`slot, recArr
    ensures page.dataTail == page.dataHead && nrec <= recArr.Length
    ensures recArr[..nrec] == Expected(recs, true, stack, scale)
  {
    hide Expected, EncodeAll, Survivors, Window, WellFormed, Stored;
    SurviveInWindow(recs, page.dataTail, page.dataHead, true);
    nrec := ReadBack(page, recArr, stack, scale, recs);
  }

  // ---------------------------------------------------------------------------
  // The record buffer

  /** `sizeof (pf_profiling_rbrec_t)`. */
  const RBREC_SIZE := 32 + 8 * PERF_COUNT_NUM

  /** The number of records the buffer of `os_perf_init` has room for. */
  function Capacity(ringsize: nat): nat {
    ringsize / RBREC_SIZE + 1
  }

  predicate AllCarry(recs: seq<Record>, c: nat) {
    forall r :: r in recs && r.Sampled? ==> |r.cntr| == c
  }

  lemma {:induction false} DeliveredBytes(recs: seq<Record>, c: nat, prev: Rec, scale: Scale)
    requires AllWellFormed(recs) && AllCarry(recs, c) && |prev.counts| == PERF_COUNT_NUM
    ensures |Expected(recs, true, prev, scale)| * (48 + 8 * c) <= 8 * |EncodeAll(recs)|
  {
    hide Encode, Payload, Delivered;
    if recs != [] {
      var r := recs[0];
      assert r in recs;
      forall r | r in recs[1..] && r.Sampled?
        ensures |r.cntr| == c
      {
        assert r in recs;
      }
      SampleBytes(r);
      var next := if r.Sampled? then Delivered(r, prev, scale) else prev;
      DeliveredBytes(recs[1..], c, next, scale);
      var n := |Expected(recs[1..], true, next, scale)|;
      assert (n + 1) * (48 + 8 * c) == n * (48 + 8 * c) + (48 + 8 * c);
    }
  }

  lemma SampleBytes(r: Record)
    ensures r.Sampled? ==> 8 * |Encode(r)| >= 48 + 8 * |r.cntr|
  {
  }

  /** The buffer holds every drain of a full ring when samples carry 3 counters or more,
      with at least one record to spare. */
  lemma BufferSuffices(recs: seq<Record>, c: nat, ringsize: nat, prev: Rec, scale: Scale)
    requires AllWellFormed(recs) && AllCarry(recs, c) && |prev.counts| == PERF_COUNT_NUM
    requires 8 * |EncodeAll(recs)| <= ringsize && 3 <= c
    ensures |Expected(recs, true, prev, scale)| < Capacity(ringsize)
  {
    hide Expected, EncodeAll, WellFormed;
    DeliveredBytes(recs, c, prev, scale);
    var n := |Expected(recs, true, prev, scale)|;
    AtLeast(n, RBREC_SIZE, 48 + 8 * c);
    assert n * RBREC_SIZE <= ringsize;
  }

  lemma {:induction false} AtLeast(n: nat, a: nat, b: nat)
    requires a <= b
    ensures n * a <= n * b
    decreases b
  {
    if a < b {
      AtLeast(n, a, b - 1);
    }
  }

  /** With exactly 3 no more than one is to spare: some ring of samples fills the rest. */
  lemma BufferTight(ringsize: nat, prev: Rec, scale: Scale) returns (recs: seq<Record>)
    requires |prev.counts| == PERF_COUNT_NUM
    ensures Fits(recs, 3, ringsize)
    ensures |Expected(recs, true, prev, scale)| == Capacity(ringsize) - 1
  {
    var s := Sampled(0, 7, 7, 0, 0, [0, 0, 0], []);
    var n := ringsize / RBREC_SIZE;
    recs := seq(n, _ => s);
    Repeated(s, recs, prev, scale);
    assert |Encode(s)| == 9;
  }

  /** Fewer counters would let short samples of a full ring overflow it. */
  lemma BufferOverflows(c: nat, ringsize: nat, prev: Rec, scale: Scale) returns (recs: seq<Record>)
    requires c < 3 && ringsize % 64 == 0 && ringsize >= 640 && |prev.counts| == PERF_COUNT_NUM
    ensures Fits(recs, c, ringsize)
    ensures |Expected(recs, true, prev, scale)| > Capacity(ringsize)
  {
    var s := Sampled(0, 7, 7, 0, 0, seq(c, _ => 0), []);
    var n := ringsize / 64;
    recs := seq(n, _ => s);
    Repeated(s, recs, prev, scale);
    assert |Encode(s)| == 6 + c;
    AtLeast(n, 6 + c, 8);
  }

  /** The records carry c counters and are in the ring together. */
  predicate Fits(recs: seq<Record>, c: nat, ringsize: nat) {
    AllWellFormed(recs) && AllCarry(recs, c) && 8 * |EncodeAll(recs)| <= ringsize
  }

  const INVALID_CONFIG := TWO64 - 1

  /** The events `cpu_profiling_setup` opens: those before the first invalid one. */
  function Opened(conf: seq<nat>): (c: nat)
    ensures c <= |conf|
  {
    if conf == [] || conf[0] == INVALID_CONFIG then 0 else 1 + Opened(conf[1..])
  }

  /** The buffer holds whatever the ring can hold, for each precision, if and only if the
      platform's table has three valid events before the first invalid one. */
  lemma BufferFitsIff(pageSize: nat, precise: Precise, conf: seq<nat>, prev: Rec, scale: Scale)
    requires pageSize >= 10 && |prev.counts| == PERF_COUNT_NUM
    ensures var ringsize := RingSize(pageSize, precise);
            (forall recs :: Fits(recs, Opened(conf), ringsize) ==> |Expected(recs, true, prev, scale)| <= Capacity(ringsize))
            <==> Opened(conf) >= 3
  {
    hide Expected, EncodeAll, WellFormed, AllCarry, Opened, Capacity;
    var ringsize, c := RingSize(pageSize, precise), Opened(conf);
    if c >= 3 {
      forall recs | Fits(recs, c, ringsize)
        ensures |Expected(recs, true, prev, scale)| <= Capacity(ringsize)
      {
        BufferSuffices(recs, c, ringsize, prev, scale);
      }
    } else {
      assert ringsize == 64 * (pageSize * (Npages(precise) / 64));
      var recs := BufferOverflows(c, ringsize, prev, scale);
      assert Fits(recs, c, ringsize);
    }
  }

  lemma {:induction false} Repeated(s: Record, recs: seq<Record>, prev: Rec, scale: Scale)
    requires WellFormed(s) && Wanted(s) && |prev.counts| == PERF_COUNT_NUM
    requires forall i :: 0 <= i < |recs| ==> recs[i] == s
    ensures |EncodeAll(recs)| == |recs| * |Encode(s)|
    ensures |Expected(recs, true, prev, scale)| == |recs|
  {
    hide Encode, Delivered;
    if recs != [] {
      AcceptedIsWanted(s, prev, scale);
      assert (|recs| - 1) * |Encode(s)| + |Encode(s)| == |recs| * |Encode(s)|;
      Repeated(s, recs[1..], Delivered(s, prev, scale), scale);
    }
  }
}
