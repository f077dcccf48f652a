/**
 The perf ring-buffer reader: a consumer over a power-of-two ring with absolute
 head and tail byte counters, decoding variable-length records.

 `MmapPage` is the mapped page with the reader's methods; `Drain` is what one drain
 computes from the unread words. The encoder it inverts is in `RingCodec`.
 */
module Ring {
  import opened Basics

  const IP_NUM := 32
  const PERF_COUNT_NUM := 5
  const PERF_RECORD_SAMPLE := 9
  const KERNEL_ADDR_START := 0xFFFF_FFFF_8000_0000

  type Byte = x: int | 0 <= x < 256

  /** Number of odd multiples of 2^31 at or below x: S32 jumps where it changes. */
  function Window(x: int): int {
    (x + TWO31) / TWO32
  }

  datatype Precise = Low | Normal | High

  /** The data pages of a ring, a power of two. */
  function Npages(precise: Precise): nat {
    match precise
    case Low => 64
    case Normal => 256
    case High => 1024
  }

  /** `pf_ringsize_init` */
  function RingSize(pageSize: nat, precise: Precise): nat {
    pageSize * Npages(precise)
  }

  // ---------------------------------------------------------------------------
  // Bytes and words

  function FromBytes(b: seq<Byte>): nat {
    if b == [] then 0 else b[0] + 256 * FromBytes(b[1..])
  }

  function ToBytes(v: nat, n: nat): (b: seq<Byte>)
    ensures |b| == n
  {
    if n == 0 then [] else [v % 256] + ToBytes(v / 256, n - 1)
  }

  function Pow256(n: nat): nat {
    if n == 0 then 1 else 256 * Pow256(n - 1)
  }

  lemma {:induction false} BytesRoundTrip(v: nat, n: nat)
    requires v < Pow256(n)
    ensures FromBytes(ToBytes(v, n)) == v
  {
    if n > 0 {
      BytesRoundTrip(v / 256, n - 1);
      assert ToBytes(v, n)[1..] == ToBytes(v / 256, n - 1);
    }
  }

  lemma {:induction false} FromBytesBound(b: seq<Byte>)
    ensures FromBytes(b) < Pow256(|b|)
  {
    if b != [] {
      FromBytesBound(b[1..]);
    }
  }

  function FromWord(b: seq<Byte>): (v: nat)
    requires |b| == 8
    ensures v < TWO64
  {
    FromBytesBound(b);
    assert Pow256(8) == TWO64;
    FromBytes(b)
  }

  /** The k-th 8-byte little-endian word of the stream, in a ring of |mem| bytes. */
  function WordAt(mem: seq<Byte>, k: nat): (v: nat)
    ensures v < TWO64
  {
    if |mem| == 0 || 8 * k % |mem| + 8 > |mem| then 0
    else var t := 8 * k % |mem|; FromWord(mem[t..t + 8])
  }

  /** An aligned position never has fewer than 8 bytes before the ring's end. */
  lemma RingRoom(n: nat, slots: nat, k: nat)
    requires n > 0 && n == 8 * slots
    ensures 8 * k % n + 8 <= n
  {
    var q, r := 8 * k / n, 8 * k % n;
    assert 8 * k == n * q + r;
    assert n * q == 8 * (slots * q);
    assert r == 8 * (k - slots * q);
  }

  /** The n words starting with the k-th. */
  function WordsFrom(mem: seq<Byte>, k: nat, n: nat): (w: seq<nat>)
    ensures |w| == n
    decreases n
  {
    if n == 0 then [] else [WordAt(mem, k)] + WordsFrom(mem, k + 1, n - 1)
  }

  lemma {:induction false} WordsSuffix(mem: seq<Byte>, k: nat, n: nat, i: nat)
    requires i <= n
    ensures WordsFrom(mem, k, n)[i..] == WordsFrom(mem, k + i, n - i)
    ensures i < n ==> WordsFrom(mem, k, n)[i] == WordAt(mem, k + i)
    decreases n
  {
    if i > 0 {
      WordsSuffix(mem, k + 1, n - 1, i - 1);
    }
  }

  // ---------------------------------------------------------------------------
  // What a drain computes

  /** A delivered record; `counts` keeps what the previous sample left in the
      counters this one does not carry, since the reader reuses one buffer. */
  datatype Rec = Rec(pid: nat, tid: nat, counts: seq<nat>, ips: seq<nat>)

  type Scale = (nat, nat, nat) -> nat

  predicate IsUserspace(ip: nat) {
    ip < KERNEL_ADDR_START
  }

  predicate Accepted(r: Rec) {
    r.pid != 0 && r.tid != 0
  }

  /** Where `mmap_buffer_skip` leaves the tail: the head is held in an `int`. */
  function SkipTarget(tail: nat, size: nat, head: nat): int {
    if S32(tail + size) > S32(head) then tail + S32(S32(head) - tail) else tail + size
  }

  /** Where `mmap_buffer_reset` leaves the tail: a sign-extended `int`. */
  function ResetTarget(head: nat): nat {
    S32(head) % TWO64
  }

  datatype IpScan = IpScan(ok: bool, ips: seq<nat>, used: nat)

  function ScanIps(w: seq<nat>, nr: nat, got: seq<nat>): (s: IpScan)
    ensures s.used <= |w| && s.used <= nr
    ensures !s.ok ==> s.used == |w|
  {
    if nr == 0 || |got| >= IP_NUM then IpScan(true, got, 0)
    else if w == [] then IpScan(false, got, 0)
    else
      var s := ScanIps(w[1..], nr - 1, if IsUserspace(w[0]) then got + [w[0]] else got);
      IpScan(s.ok, s.ips, s.used + 1)
  }

  function Overlay(counts: seq<nat>, cntr: seq<nat>, te: nat, tr: nat, scale: Scale): (r: seq<nat>)
    requires |cntr| <= |counts|
    ensures |r| == |counts|
  {
    seq(|counts|, i requires 0 <= i < |counts| => if i < |cntr| then scale(cntr[i], te, tr) else counts[i])
  }

  lemma OverlayNone(counts: seq<nat>, te: nat, tr: nat, scale: Scale)
    ensures Overlay(counts, [], te, tr, scale) == counts
  {
  }

  lemma OverlayStep(counts: seq<nat>, w: seq<nat>, i: nat, te: nat, tr: nat, scale: Scale)
    requires i < |w| && i < |counts|
    ensures Overlay(counts, w[..i + 1], te, tr, scale)
         == Overlay(counts, w[..i], te, tr, scale)[i := scale(w[i], te, tr)]
  {
  }

  function PidOf(id: nat): nat {
    id % TWO32
  }

  function TidOf(id: nat): nat {
    id / TWO32
  }

  /** The fields of one sample: `used` words were read; `skip` says whether the reader
      then skips what is left of the record. `sane` is false once the words break what
      the kernel guarantees: no more counters than the reader has room for, and
      (in `DrainOut`) record sizes that are multiples of 8. */
  datatype Body = Body(ok: bool, rec: Rec, used: nat, skip: bool, sane: bool)

  function SampleBody(w: seq<nat>, prev: Rec, scale: Scale): (b: Body)
    requires |prev.counts| == PERF_COUNT_NUM
    ensures |b.rec.counts| == PERF_COUNT_NUM && b.used <= |w| && (b.ok ==> b.sane)
  {
    var nr: int := if |w| >= 2 then w[1] else 0;
    if nr > PERF_COUNT_NUM then Body(false, prev, |w|, false, false)
    else if |w| < 5 + nr then Body(false, prev, |w|, true, true)
    else
      var cntr, chain := w[4..][..nr], w[4..][nr..];
      var scan := ScanIps(chain[1..], chain[0], []);
      if !scan.ok then Body(false, prev, 5 + nr + scan.used, false, true)
      else
        var counts := Overlay(prev.counts, cntr, w[2], w[3], scale);
        Body(true, Rec(PidOf(w[0]), TidOf(w[0]), counts, scan.ips), 5 + nr + scan.used, true, true)
  }

  datatype SampleOut = SampleOut(ok: bool, rec: Rec, tail: int, sane: bool)

  /** Reading one sample's payload of `size` bytes from the words at `tail`. */
  function Sample(w: seq<nat>, tail: nat, size: int, prev: Rec, scale: Scale): (s: SampleOut)
    requires |prev.counts| == PERF_COUNT_NUM
    ensures |s.rec.counts| == PERF_COUNT_NUM && (s.ok ==> s.sane)
  {
    var b := SampleBody(w, prev, scale);
    var next := tail + 8 * b.used;
    SampleOut(b.ok, b.rec,
              if b.skip then SkipLeft(next, size - 8 * b.used, tail + 8 * |w|) else next, b.sane)
  }

  function SkipLeft(tail: nat, left: int, head: nat): int {
    if left > 0 then SkipTarget(tail, left, head) else tail
  }

  datatype Step = Stop(tail: int, sane: bool) | Next(out: seq<Rec>, rec: Rec, tail: int)

  /** One turn of the drain's loop, at a record header. */
  function OneRecord(w: seq<nat>, tail: nat, keep: bool, prev: Rec, scale: Scale): (s: Step)
    requires |prev.counts| == PERF_COUNT_NUM && w != []
    ensures s.Next? ==> |s.rec.counts| == PERF_COUNT_NUM
    ensures s.Next? && s.out != [] ==> keep && s.out == [s.rec]
  {
    var head := tail + 8 * |w|;
    var size: int := w[0] / TWO48 - 8;
    if size <= 0 then Stop(ResetTarget(head), true)
    else if size % 8 != 0 then Stop(tail, false)
    else if w[0] % TWO32 == PERF_RECORD_SAMPLE && keep then
      var s := Sample(w[1..], tail + 8, size, prev, scale);
      if s.ok then Next(if Accepted(s.rec) then [s.rec] else [], s.rec, s.tail) else Stop(s.tail, s.sane)
    else
      Next([], prev, SkipTarget(tail + 8, size, head))
  }

  datatype DrainOut = DrainOut(recs: seq<Rec>, tail: int, sane: bool)

  /** One whole drain: the records delivered and the tail it leaves behind. With
      `keep` false every record is discarded. */
  function Drain(w: seq<nat>, tail: nat, keep: bool, prev: Rec, scale: Scale): DrainOut
    requires |prev.counts| == PERF_COUNT_NUM
    decreases |w|, 1
  {
    if w == [] then DrainOut([], tail, true)
    else match OneRecord(w, tail, keep, prev, scale)
      case Stop(next, sane) => DrainOut([], next, sane)
      case Next(out, rec, next) =>
        var rest := Resume(w, tail, next, keep, rec, scale);
        rest.(recs := out + rest.recs)
  }

  /** Continuing at `next`; at or past the head the next read fails. */
  function Resume(w: seq<nat>, tail: nat, next: int, keep: bool, prev: Rec, scale: Scale): DrainOut
    requires |prev.counts| == PERF_COUNT_NUM && w != []
    decreases |w|, 0
  {
    if next < tail + 8 || next >= tail + 8 * |w| then DrainOut([], next, true)
    else Drain(w[(next - tail) / 8..], next, keep, prev, scale)
  }

  /** A skip of a payload either moves past it or jumps to the head. */
  lemma SkipMoves(tail: nat, size: nat, head: nat)
    requires tail <= head < tail + TWO31
    ensures SkipTarget(tail, size, head) == if S32(tail + size) > S32(head) then head else tail + size
  {
  }

  /** A reset reaches the head if and only if the head fits a C `int`. */
  lemma ResetExact(head: nat)
    requires head < TWO64
    ensures ResetTarget(head) == head <==> head < TWO31 || head >= TWO64 - TWO31
  {
    var r := S32(head);
    assert head + TWO31 == TWO32 * Window(head) + (r + TWO31);
    assert r >= 0 ==> ResetTarget(head) == r;
    assert r < 0 ==> ResetTarget(head) == r + TWO64;
  }

  lemma DrainEmpty(tail: nat, keep: bool, prev: Rec, scale: Scale)
    requires |prev.counts| == PERF_COUNT_NUM
    ensures Drain([], tail, keep, prev, scale) == DrainOut([], tail, true)
  {
  }

  lemma DrainUnfold(w: seq<nat>, tail: nat, keep: bool, prev: Rec, scale: Scale)
    requires |prev.counts| == PERF_COUNT_NUM && w != []
    ensures var s, d := OneRecord(w, tail, keep, prev, scale), Drain(w, tail, keep, prev, scale);
            if s.Stop? then d == DrainOut([], s.tail, s.sane)
            else
              && (s.tail >= tail + 8 * |w| ==> d == DrainOut(s.out, s.tail, true))
              && (forall k :: 0 < k < |w| && s.tail == tail + 8 * k ==>
                    var rest := Drain(w[k..], s.tail, keep, s.rec, scale);
                    d == DrainOut(s.out + rest.recs, rest.tail, rest.sane))
  {
    var s := OneRecord(w, tail, keep, prev, scale);
    forall k | 0 < k < |w| && s.tail == tail + 8 * k
      ensures (s.tail - tail) / 8 == k
    {
    }
  }

  // ---------------------------------------------------------------------------
  // The mapped page and its reader

  class MmapPage {
    const data: array<Byte>
    const pageSize: nat
    var dataHead: nat
    var dataTail: nat

    // head, tail and ring size in 8-byte words
    ghost var headSlot: nat
    ghost var slot: nat
    ghost const nslots: nat

    ghost predicate Valid()
      reads this
    {
      && pageSize >= 8
      && 0 < data.Length == 8 * nslots < TWO31
      && dataHead == 8 * headSlot && dataTail == 8 * slot
      && slot - 0x2000 <= headSlot <= slot + nslots
    }

    constructor (pageSize: nat, precise: Precise)
      requires pageSize >= 8 && pageSize % 8 == 0 && RingSize(pageSize, precise) < TWO31
      ensures Valid() && Unread() == [] && data.Length == RingSize(pageSize, precise)
    {
      var npages := Npages(precise);
      assert pageSize * npages == 8 * ((pageSize / 8) * npages);
      this.pageSize := pageSize;
      data := new Byte[pageSize * npages](_ => 0);
      dataHead, dataTail := 0, 0;
      headSlot, slot, nslots := 0, 0, (pageSize / 8) * npages;
    }

    /** The unread words, oldest first, wherever they wrap. */
    ghost function Unread(): (w: seq<nat>)
      requires Valid()
      reads this, data
      ensures |w| == if headSlot <= slot then 0 else headSlot - slot
    {
      if headSlot <= slot then [] else WordsFrom(data[..], slot, headSlot - slot)
    }

    /** `mmap_buffer_read` for the 8-byte objects that are all it is ever used for. */
    method Read() returns (ok: bool, v: nat)
      requires Valid()
      modifies this`dataTail, this`slot
      ensures Valid()
      ensures ok <==> |old(Unread())| > 0
      ensures ok ==> slot == old(slot) + 1 && v == old(Unread())[0] < TWO64 && Unread() == old(Unread())[1..]
      ensures !ok ==> slot == old(slot)
    {
      if dataHead - dataTail < 8 {
        return false, 0;
      }
      // s_mapsize counts the metadata page as well, so this never sees the ring's end
      var mapsize := pageSize + data.Length;
      var t := dataTail % data.Length;
      RingRoom(data.Length, nslots, slot);
      if mapsize - t < 8 {
        assert false;
      }
      v := FromWord(data[t..t + 8]);
      WordsSuffix(data[..], slot, headSlot - slot, 1);
      assert data[..][t..t + 8] == data[t..t + 8];
      dataTail, slot := dataTail + 8, slot + 1;
      return true, v;
    }

    /** `mmap_buffer_skip`. */
    method Skip(size: nat, ghost words: nat)
      requires Valid() && slot <= headSlot && size == 8 * words < TWO16
      modifies this`dataTail, this`slot
      ensures Valid() && dataTail == SkipTarget(old(dataTail), size, dataHead) >= old(dataTail)
    {
      hide S32;
      SkipMoves(dataTail, size, dataHead);
      if S32(dataTail + size) > S32(dataHead) {
        dataTail := dataTail + S32(S32(dataHead) - dataTail);
        slot := headSlot;
      } else {
        dataTail := dataTail + size;
        slot := slot + words;
      }
    }

    /** `mmap_buffer_reset`. */
    method Reset()
      modifies this`dataTail
      ensures dataTail == ResetTarget(dataHead)
    {
      dataTail := S32(dataHead) % TWO64;
    }

    /** The counters of a sample: reads `nr` words into `rec`, scaling each. */
    method ReadCounters(nr: nat, te: nat, tr: nat, counts0: seq<nat>, scale: Scale)
      returns (ok: bool, counts: seq<nat>, used: nat)
      requires Valid() && slot <= headSlot && nr <= |counts0|
      modifies this`dataTail, this`slot
      ensures Valid() && slot == old(slot) + used <= headSlot
      ensures ok <==> nr <= |old(Unread())|
      ensures used == if ok then nr else |old(Unread())|
      ensures Unread() == old(Unread())[used..]
      ensures ok ==> counts == Overlay(counts0, old(Unread())[..nr], te, tr, scale)
    {
      hide WordsFrom, Overlay;
      ghost var w := Unread();
      OverlayNone(counts0, te, tr, scale);
      counts := counts0;
      used := 0;
      while used < nr
        invariant 0 <= used <= nr && used <= |w|
        invariant Valid() && slot == old(slot) + used <= headSlot
        invariant Unread() == w[used..]
        invariant counts == Overlay(counts0, w[..used], te, tr, scale)
      {
        var more, v := Read();
        if !more {
          return false, counts, used;
        }
        assert v == w[used] && Unread() == w[used + 1..];
        OverlayStep(counts0, w, used, te, tr, scale);
        counts := counts[used := scale(v, te, tr)];
        used := used + 1;
      }
      ok := true;
    }

    /** The call chain of a sample: stops once 32 user-space addresses are saved. */
    method ReadIps(nr: nat) returns (ok: bool, ips: seq<nat>, used: nat)
      requires Valid() && slot <= headSlot
      modifies this`dataTail, this`slot
      ensures Valid() && slot == old(slot) + used <= headSlot
      ensures IpScan(ok, ips, used) == ScanIps(old(Unread()), nr, [])
      ensures Unread() == old(Unread())[used..]
    {
      hide WordsFrom;
      ghost var w := Unread();
      ghost var full := ScanIps(w, nr, []);
      ips := [];
      used := 0;
      while used < nr
        invariant 0 <= used <= nr && used <= |w|
        invariant Valid() && slot == old(slot) + used <= headSlot
        invariant Unread() == w[used..]
        invariant var s := ScanIps(w[used..], nr - used, ips); full == IpScan(s.ok, s.ips, s.used + used)
      {
        if |ips| >= IP_NUM {
          break;
        }
        var more, v := Read();
        if !more {
          return false, ips, used;
        }
        assert v == w[used] && Unread() == w[used + 1..] == w[used..][1..];
        if IsUserspace(v) {
          ips := ips + [v];
        }
        used := used + 1;
      }
      ok := true;
    }

    /** The four fixed fields of a sample: pid/tid, nr, and the two times. */
    method ReadFixed() returns (ok: bool, id: nat, nr: nat, te: nat, tr: nat, used: nat)
      requires Valid() && slot <= headSlot
      modifies this`dataTail, this`slot
      ensures Valid() && slot == old(slot) + used <= headSlot
      ensures ok <==> 4 <= |old(Unread())|
      ensures used == if ok then 4 else |old(Unread())|
      ensures Unread() == old(Unread())[used..]
      ensures ok ==> var w := old(Unread()); id == w[0] && nr == w[1] && te == w[2] && tr == w[3]
    {
      hide WordsFrom;
      ghost var w := Unread();
      ok, id, nr, te, tr, used := false, 0, 0, 0, 0, 0;
      var more: bool;
      more, id := Read();
      if !more { return; }
      used := 1;
      more, nr := Read();
      if !more { return; }
      used := 2;
      assert Unread() == w[2..];
      more, te := Read();
      if !more { return; }
      used := 3;
      assert Unread() == w[3..];
      more, tr := Read();
      if !more { return; }
      ok, used := true, 4;
      assert Unread() == w[4..];
    }

    method SampleFields(prev: Rec, scale: Scale) returns (ok: bool, rec: Rec, used: nat, skip: bool)
      requires Valid() && slot <= headSlot
      requires |prev.counts| == PERF_COUNT_NUM && SampleBody(Unread(), prev, scale).sane
      modifies this`dataTail, this`slot
      ensures Valid() && slot == old(slot) + used <= headSlot
      ensures var b := SampleBody(old(Unread()), prev, scale);
              ok == b.ok && used == b.used && skip == b.skip && (ok ==> rec == b.rec)
    {
      hide WordsFrom, ScanIps, Overlay, PidOf, TidOf;
      ghost var w := Unread();
      rec, skip := prev, true;
      var id, nr, te, tr;
      ok, id, nr, te, tr, used := ReadFixed();
      if !ok {
        return;
      }
      assert nr == w[1];
      var counts, n;
      ok, counts, n := ReadCounters(nr, te, tr, prev.counts, scale);
      used := used + n;
      if !ok {
        return;
      }
      var nips;
      ok, nips := Read();
      if !ok {
        return;
      }
      var ips;
      ok, ips, n := ReadIps(nips);
      used := used + 1 + n;
      if !ok {
        return false, rec, used, false;
      }
      rec := Rec(PidOf(id), TidOf(id), counts, ips);
    }

    /** `profiling_sample_read`: one sample, then a skip over what is left of it. */
    method SampleRead(size: nat, ghost words: nat, prev: Rec, scale: Scale) returns (ok: bool, rec: Rec)
      requires Valid() && slot <= headSlot && size == 8 * words < TWO16
      requires |prev.counts| == PERF_COUNT_NUM
      requires Sample(Unread(), dataTail, size, prev, scale).sane
      modifies this`dataTail, this`slot
      ensures Valid()
      ensures var s := Sample(old(Unread()), old(dataTail), size, prev, scale);
              ok == s.ok && dataTail == s.tail >= old(dataTail) && (ok ==> rec == s.rec)
    {
      hide WordsFrom, SampleBody, S32;
      var used, skip;
      ok, rec, used, skip := SampleFields(prev, scale);
      var left := size - 8 * used;
      if skip && left > 0 {
        Skip(left, words - used);
      }
    }

    /** One turn of the loop of `pf_profiling_record`, up to storing the record. */
    method RecordOne(keep: bool, prev: Rec, scale: Scale) returns (step: Step)
      requires Valid() && slot < headSlot && |prev.counts| == PERF_COUNT_NUM
      requires var s := OneRecord(Unread(), dataTail, keep, prev, scale); s.Stop? ==> s.sane
      modifies this`dataTail, this`slot
      ensures step == OneRecord(old(Unread()), old(dataTail), keep, prev, scale) && dataTail == step.tail
      ensures step.Next? ==> Valid() && slot > old(slot)
    {
      hide WordsFrom, SampleBody, Sample, SkipTarget, S32;
      ghost var w := Unread();
      var ok, ehdr := Read();
      assert w[0] == ehdr && w[1..] == Unread();
      var size: int := ehdr / TWO48 - 8;
      if size <= 0 {
        Reset();
        return Stop(dataTail, true);
      }
      if ehdr % TWO32 == PERF_RECORD_SAMPLE && keep {
        var good, rec := SampleRead(size, size / 8, prev, scale);
        step := if good then Next(if Accepted(rec) then [rec] else [], rec, dataTail) else Stop(dataTail, true);
      } else {
        Skip(size, size / 8);
        step := Next([], prev, dataTail);
      }
    }

    /** `pf_profiling_record`: drains the ring into `recArr`; a null array discards. */
    method Record(recArr: array?<Rec>, stack: Rec, scale: Scale) returns (nrec: nat)
      requires Valid() && slot <= headSlot && |stack.counts| == PERF_COUNT_NUM
      requires var d := Drain(Unread(), dataTail, recArr != null, stack, scale);
               d.sane && (recArr != null ==> |d.recs| <= recArr.Length)
      modifies this`dataTail, this`slot, if recArr == null then {} else {recArr}
      ensures var d := Drain(old(Unread()), old(dataTail), recArr != null, stack, scale);
              dataTail == d.tail && nrec == |d.recs| && (recArr != null ==> recArr[..nrec] == d.recs)
    {
      hide WordsFrom, OneRecord, Drain, Resume;
      DrainEmpty(dataTail, recArr != null, stack, scale);
      nrec := 0;
      var rec := stack;
      ghost var d := Drain(Unread(), dataTail, recArr != null, stack, scale);
      while dataHead - dataTail >= 8
        invariant |rec.counts| == PERF_COUNT_NUM && nrec <= |d.recs| && Valid()
        invariant recArr != null ==> recArr[..nrec] == d.recs[..nrec]
        invariant slot < headSlot ==>
                    var e := Drain(Unread(), dataTail, recArr != null, rec, scale);
                    e.sane && e.recs == d.recs[nrec..] && e.tail == d.tail
        invariant slot >= headSlot ==> nrec == |d.recs| && dataTail == d.tail
        decreases headSlot - slot
      {
        ghost var w, s0 := Unread(), slot;
        DrainUnfold(w, dataTail, recArr != null, rec, scale);
        var step := RecordOne(recArr != null, rec, scale);
        if step.Stop? {
          return;
        }
        if slot < headSlot {
          Suffix(w, s0);
          assert step.tail == 8 * s0 + 8 * (slot - s0);
        }
        assert step.out <= d.recs[nrec..];
        rec := step.rec;
        if step.out != [] {
          recArr[nrec] := rec;
          nrec := nrec + 1;
        }
      }
    }

    /** After reading up to `slot`, what is unread is a suffix of what was. */
    lemma Suffix(w: seq<nat>, from: nat)
      requires Valid() && from <= slot <= headSlot
      requires w == WordsFrom(data[..], from, headSlot - from)
      ensures Unread() == w[slot - from..]
    {
      hide WordsFrom, WordAt;
      WordsSuffix(data[..], from, headSlot - from, slot - from);
    }
  }
}
