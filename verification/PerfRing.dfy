/** The perf ring buffer shared by the kernel, which appends records, and PerfMap::read, which
    copies them out. Counters run freely modulo 2^64; the ring size divides 2^64. */
module PerfRing {
  import opened Arith
  import opened Bytes

  const TWO_64 := 0x1_0000_0000_0000_0000
  const HEADER_LEN := 8
  const RECORD_LOST := 2
  const RECORD_SAMPLE := 9

  type u64 = x: int | 0 <= x < TWO_64
  type Record = seq<byte>

  // ---------- records ----------

  // struct perf_event_header { type: u32, misc: u16, size: u16 }
  function RecordType(r: Record): u32
    requires |r| >= HEADER_LEN
  {
    Dec32(r[..4])
  }

  function RecordSize(r: Record): nat
    requires |r| >= HEADER_LEN
  {
    var lo: int, hi: int := r[6], r[7];
    lo + 0x100 * hi
  }

  function PayloadLen(r: Record): nat
    requires |r| >= 12
  {
    Dec32(r[8..12])
  }

  /** What the kernel promises of every record it writes. */
  predicate WellFormed(r: Record) {
    && |r| >= HEADER_LEN && |r| % 8 == 0 && RecordSize(r) == |r|
    && (RecordType(r) == RECORD_SAMPLE ==> |r| >= 12 && 12 + PayloadLen(r) <= |r|)
    && (RecordType(r) == RECORD_LOST ==> |r| >= 24)
  }

  function Flat(rs: seq<Record>): (b: seq<byte>) {
    if rs == [] then [] else rs[0] + Flat(rs[1..])
  }

  lemma {:induction false} FlatSnoc(rs: seq<Record>, r: Record)
    ensures Flat(rs + [r]) == Flat(rs) + r
  {
    if rs == [] {
      assert Flat([r]) == r + Flat([r][1..]);
    } else {
      FlatSnoc(rs[1..], r);
      assert (rs + [r])[1..] == rs[1..] + [r];
    }
  }

  lemma {:induction false} FlatAligned(rs: seq<Record>)
    requires forall r :: r in rs ==> WellFormed(r)
    ensures |Flat(rs)| % 8 == 0 && (rs != [] ==> |Flat(rs)| >= |rs[0]| >= HEADER_LEN)
  {
    if rs != [] {
      assert rs[0] in rs;
      FlatAligned(rs[1..]);
    }
  }

  // ---------- the ring as a window of bytes ----------

  datatype Ring = Ring(data: seq<byte>, head: u64, tail: u64)

  predicate GoodSize(n: int) {
    n > 0 && n % 8 == 0 && TWO_64 % n == 0
  }

  // The place `k` bytes after `start` in a ring of `n` bytes.
  function Wrap(start: int, k: int, n: int): int {
    if start + k < n then start + k else start + k - n
  }

  function Window(data: seq<byte>, start: nat, k: nat): (w: seq<byte>)
    requires start < |data| && k <= |data|
    ensures |w| == k
  {
    seq(k, i requires 0 <= i < k => data[Wrap(start, i, |data|)])
  }

  /** The ring holds exactly the pending records `rs`, from tail to head; they leave room. The tail
      stays 8-byte aligned, so a record header never straddles the end of the ring. */
  ghost predicate Holds(ring: Ring, rs: seq<Record>) {
    var n := |ring.data|;
    && GoodSize(n)
    && (forall r :: r in rs ==> WellFormed(r))
    && ring.tail % 8 == 0
    && |Flat(rs)| < n
    && ring.head == (ring.tail + |Flat(rs)|) % TWO_64
    && Window(ring.data, ring.tail % n, |Flat(rs)|) == Flat(rs)
  }

  // ---------- modular arithmetic ----------

  lemma Factor(q: int, c: int, d: int, n: int)
    ensures (q - c + d) * n == q * n - c * n + d * n
  {
  }

  /** Advancing a free-running counter advances its place in the ring, across both wrap-arounds. */
  lemma Advance(t: u64, k: nat, n: int)
    requires GoodSize(n) && k <= n
    ensures (t + k) % TWO_64 % n == Wrap(t % n, k, n)
  {
    var m := TWO_64 / n;
    assert TWO_64 == m * n;
    var q, s := t / n, t % n;
    assert t == q * n + s;
    var w := Wrap(s, k, n);
    var x := (t + k) % TWO_64;
    SizeBound(n);
    var c := if t + k < TWO_64 then 0 else m;
    assert x == t + k - c * n by {
      if t + k < TWO_64 { ModUnique(t + k, 0, t + k, TWO_64); }
      else { ModUnique(t + k, 1, t + k - TWO_64, TWO_64); }
    }
    var d := if s + k < n then 0 else 1;
    Factor(q, c, d, n);
    ModUnique(x, q - c + d, w, n);
  }

  lemma SizeBound(n: int)
    requires GoodSize(n)
    ensures n <= TWO_64
  {
    if n > TWO_64 {
      ModUnique(TWO_64, 0, TWO_64, n);
    }
  }

  lemma Eightfold(q: int, m: int)
    ensures q * (8 * m) == 8 * (q * m)
  {
  }

  lemma AlignedInRing(t: u64, n: int)
    requires GoodSize(n) && t % 8 == 0
    ensures t % n % 8 == 0 && t % n + HEADER_LEN <= n
  {
    var q, s, m, a := t / n, t % n, n / 8, t / 8;
    assert t == q * n + s && n == 8 * m && t == 8 * a;
    Eightfold(q, m);
    assert s == 8 * (a - q * m);
  }

  // ---------- the two sides ----------

  /** The kernel's copy into the ring, byte by byte from the head. */
  function Put(data: seq<byte>, start: nat, r: Record): (data': seq<byte>)
    requires start < |data| && |r| <= |data|
    ensures |data'| == |data|
  {
    seq(|data|, p requires 0 <= p < |data| =>
      var k := if p >= start then p - start else p - start + |data|;
      if k < |r| then r[k] else data[p])
  }

  function Available(ring: Ring): nat {
    (ring.head + TWO_64 - ring.tail) % TWO_64
  }

  /** The kernel appends a record only if it is well formed and leaves the ring short of full. */
  predicate Fits(ring: Ring, r: Record) {
    ring.data != [] && WellFormed(r) && Available(ring) + |r| < |ring.data|
  }

  function Push(ring: Ring, r: Record): (ring': Ring)
    requires Fits(ring, r)
  {
    Ring(Put(ring.data, ring.head % |ring.data|, r), (ring.head + |r|) % TWO_64, ring.tail)
  }

  /** The bytes PerfMap::read copies: one piece, or two when the record runs past the end. */
  function CopyOut(data: seq<byte>, start: nat, end: nat, size: nat): (b: seq<byte>)
    requires start < |data| && end < |data|
    requires if end < start then |data| - start <= size <= |data| else start + size <= |data|
  {
    if end < start then data[start..] + data[..size - (|data| - start)]
    else data[start..start + size]
  }

  lemma AvailableHeld(ring: Ring, rs: seq<Record>)
    requires Holds(ring, rs)
    ensures Available(ring) == |Flat(rs)|
  {
    hide Flat, Window, WellFormed;
    SizeBound(|ring.data|);
    Distance(ring.tail, |Flat(rs)|);
  }

  lemma Distance(t: u64, k: nat)
    requires k < TWO_64
    ensures ((t + k) % TWO_64 + TWO_64 - t) % TWO_64 == k
  {
    var h := (t + k) % TWO_64;
    if t + k < TWO_64 {
      assert h == t + k;
      ModUnique(h + TWO_64 - t, 1, k, TWO_64);
    } else {
      assert h == t + k - TWO_64;
      ModUnique(h + TWO_64 - t, 0, k, TWO_64);
    }
  }

  lemma PutWindow(data: seq<byte>, start: nat, k: nat, r: Record)
    requires start < |data| && k + |r| <= |data| && k < |data|
    ensures Window(Put(data, Wrap(start, k, |data|), r), start, k + |r|) == Window(data, start, k) + r
  {
  }

  lemma AddWrapped(t: u64, k: nat, j: nat)
    requires k < TWO_64 && j < TWO_64
    ensures ((t + k) % TWO_64 + j) % TWO_64 == (t + (k + j)) % TWO_64
  {
  }

  /** Pushing appends to the pending records. */
  lemma PushRefines(ring: Ring, rs: seq<Record>, r: Record)
    requires Holds(ring, rs) && Fits(ring, r)
    ensures Holds(Push(ring, r), rs + [r])
  {
    hide WellFormed, Put, Window, Flat, Available, GoodSize, Wrap;
    var n, k, t := |ring.data|, |Flat(rs)|, ring.tail;
    AvailableHeld(ring, rs);
    SizeBound(n);
    Advance(t, k, n);
    var start := t % n;
    PutWindow(ring.data, start, k, r);
    FlatSnoc(rs, r);
    AddWrapped(t, k, |r|);
    var ring' := Push(ring, r);
    assert ring'.data == Put(ring.data, Wrap(start, k, n), r);
    assert Window(ring'.data, start, k + |r|) == Flat(rs + [r]);
  }

  /** The reads of PerfMap::read stay inside the ring: the header in one piece, the record in one or
      two pieces. */
  predicate Readable(ring: Ring) {
    var n := |ring.data|;
    n > 0 &&
    var start := ring.tail % n;
    start + HEADER_LEN <= n &&
    var size := RecordSize(ring.data[start..]);
    var end := (ring.tail + size) % TWO_64 % n;
    if end < start then n - start <= size <= n else start + size <= n
  }

  /** One call of PerfMap::read on a non-empty ring: the ring after it and the copied record. */
  function Read(ring: Ring): (r: (Ring, Record))
    requires Readable(ring)
  {
    var n := |ring.data|;
    var start := ring.tail % n;
    var size := RecordSize(ring.data[start..]);
    var end := (ring.tail + size) % TWO_64 % n;
    (ring.(tail := (ring.tail + size) % TWO_64), CopyOut(ring.data, start, end, size))
  }

  lemma CopyIsWindow(data: seq<byte>, start: nat, size: nat)
    requires start < |data| && 0 < size < |data|
    ensures var end := Wrap(start, size, |data|);
            && (if end < start then |data| - start <= size else start + size <= |data|)
            && CopyOut(data, start, end, size) == Window(data, start, size)
  {
  }

  lemma WindowShift(data: seq<byte>, start: nat, z: nat, k: nat)
    requires start < |data| && z <= k < |data|
    ensures Window(data, start, k)[..z] == Window(data, start, z)
    ensures Window(data, start, k)[z..] == Window(data, Wrap(start, z, |data|), k - z)
  {
  }

  // The header at the tail is the header of the first pending record.
  lemma HeaderInPlace(data: seq<byte>, start: nat, r: Record, k: nat)
    requires start + HEADER_LEN <= |data| && HEADER_LEN <= |r| <= k < |data| && Window(data, start, k)[..|r|] == r
    ensures RecordSize(data[start..]) == RecordSize(r) && RecordType(data[start..]) == RecordType(r)
  {
    forall i | 0 <= i < HEADER_LEN ensures data[start + i] == r[i] {
      assert r[i] == Window(data, start, k)[i];
    }
    assert data[start..][..4] == r[..4];
  }

  lemma {:induction false} FlatFirst(rs: seq<Record>)
    requires rs != []
    ensures |rs[0]| <= |Flat(rs)| && Flat(rs)[..|rs[0]|] == rs[0] && Flat(rs)[|rs[0]|..] == Flat(rs[1..])
  {
  }

  // What lies at a place in the ring: the first pending record, then the others.
  lemma AtTail(data: seq<byte>, start: nat, rs: seq<Record>)
    requires rs != [] && WellFormed(rs[0]) && start + HEADER_LEN <= |data|
    requires |Flat(rs)| < |data| && Window(data, start, |Flat(rs)|) == Flat(rs)
    ensures var z := |rs[0]|;
            var end := Wrap(start, z, |data|);
            && 0 < z < |data| && z % 8 == 0 && z <= |Flat(rs)| && 0 <= end < |data|
            && RecordSize(data[start..]) == z && RecordType(data[start..]) == RecordType(rs[0])
            && (if end < start then |data| - start <= z <= |data| else start + z <= |data|)
            && CopyOut(data, start, end, z) == rs[0]
            && Flat(rs[1..]) == Window(data, end, |Flat(rs)| - z) && |Flat(rs[1..])| == |Flat(rs)| - z
  {
    hide Window, Flat, RecordSize, RecordType, CopyOut;
    var z, k := |rs[0]|, |Flat(rs)|;
    FlatFirst(rs);
    WindowShift(data, start, z, k);
    HeaderInPlace(data, start, rs[0], k);
    CopyIsWindow(data, start, z);
  }

  /** A non-empty ring yields its first pending record, byte for byte, and keeps the rest. */
  lemma ReadRefines(ring: Ring, rs: seq<Record>)
    requires Holds(ring, rs) && rs != []
    ensures ring.tail != ring.head && Readable(ring)
    ensures Read(ring).1 == rs[0] && Holds(Read(ring).0, rs[1..])
    ensures |rs[0]| >= HEADER_LEN && RecordType(ring.data[ring.tail % |ring.data|..]) == RecordType(rs[0])
  {
    hide Window, Flat, GoodSize, RecordSize, RecordType, CopyOut, WellFormed, Wrap;
    var n, t, k, z := |ring.data|, ring.tail, |Flat(rs)|, |rs[0]|;
    assert WellFormed(rs[0]) by { assert rs[0] in rs; }
    RecordMin(rs[0]);
    SizeBound(n);
    AlignedInRing(t, n);
    AtTail(ring.data, t % n, rs);
    EmptyWhenEqual(ring, rs);
    Advance(t, z, n);
    AddWrapped(t, z, k - z);
    TailAligned(t, z);
  }

  lemma RecordMin(r: Record)
    requires WellFormed(r)
    ensures |r| >= HEADER_LEN
  {
  }

  lemma TailAligned(t: u64, z: nat)
    requires t % 8 == 0 && z % 8 == 0
    ensures (t + z) % TWO_64 % 8 == 0
  {
  }

  lemma EmptyWhenEqual(ring: Ring, rs: seq<Record>)
    requires Holds(ring, rs)
    ensures ring.tail == ring.head <==> rs == []
  {
    AvailableHeld(ring, rs);
    FlatAligned(rs);
  }

  // ---------- every interleaving ----------

  datatype Step = KernelPush(r: Record) | UserRead

  datatype Trace = Trace(ring: Ring, pushed: seq<Record>, read: seq<Record>)

  /** One step of either side. A record that does not fit is dropped by the kernel, and reading an
      empty ring returns nothing. */
  function Next(t: Trace, s: Step): (t': Trace) {
    match s
    case KernelPush(r) =>
      if Fits(t.ring, r) then Trace(Push(t.ring, r), t.pushed + [r], t.read) else t
    case UserRead =>
      if t.ring.tail == t.ring.head || !Readable(t.ring) then t
      else Trace(Read(t.ring).0, t.pushed, t.read + [Read(t.ring).1])
  }

  function Run(t: Trace, steps: seq<Step>): (t': Trace)
    decreases |steps|
  {
    if steps == [] then t else Run(Next(t, steps[0]), steps[1..])
  }

  /** The ring refines a FIFO queue: the records read, then the records pending, are the records
      pushed, byte for byte and in order. */
  ghost predicate Fifo(t: Trace) {
    |t.read| <= |t.pushed| && t.read == t.pushed[..|t.read|] && Holds(t.ring, t.pushed[|t.read|..])
  }

  lemma NextFifo(t: Trace, s: Step)
    requires Fifo(t)
    ensures Fifo(Next(t, s))
  {
    var pending := t.pushed[|t.read|..];
    match s
    case KernelPush(r) =>
      if Fits(t.ring, r) {
        PushRefines(t.ring, pending, r);
        assert (t.pushed + [r])[|t.read|..] == pending + [r];
      }
    case UserRead =>
      EmptyWhenEqual(t.ring, pending);
      if pending != [] {
        ReadRefines(t.ring, pending);
        assert pending[1..] == t.pushed[|t.read| + 1..];
      }
  }

  /** Nothing is dropped or skipped without need: a well-formed record is pushed exactly when it leaves
      the ring short of full, and a read takes the first pending record exactly when there is one. */
  lemma NextExactly(t: Trace, s: Step)
    requires Fifo(t)
    ensures var pending, t' := t.pushed[|t.read|..], Next(t, s);
            match s
            case KernelPush(r) =>
              && t'.read == t.read
              && t'.pushed == t.pushed + if WellFormed(r) && |Flat(pending)| + |r| < |t.ring.data| then [r] else []
            case UserRead => t'.pushed == t.pushed && t'.read == t.read + pending[..if pending == [] then 0 else 1]
  {
    hide WellFormed, Flat, GoodSize, Window, RecordType, RecordSize, Push, Read, Available;
    var pending := t.pushed[|t.read|..];
    AvailableHeld(t.ring, pending);
    EmptyWhenEqual(t.ring, pending);
    SomeData(t.ring, pending);
    if pending != [] {
      ReadRefines(t.ring, pending);
      assert pending[..1] == [pending[0]];
    }
  }

  lemma SomeData(ring: Ring, rs: seq<Record>)
    requires Holds(ring, rs)
    ensures ring.data != []
  {
  }

  /** Over every interleaving of pushes and reads, from an empty ring at any aligned counter value. */
  lemma {:induction false} RunFifo(t: Trace, steps: seq<Step>)
    requires Fifo(t)
    ensures Fifo(Run(t, steps))
    decreases |steps|
  {
    hide Fifo, Next;
    if steps != [] {
      NextFifo(t, steps[0]);
      RunFifo(Next(t, steps[0]), steps[1..]);
    }
  }

  lemma StartFifo(data: seq<byte>, counter: u64)
    requires GoodSize(|data|) && counter % 8 == 0
    ensures Fifo(Trace(Ring(data, counter, counter), [], []))
  {
  }

  // ---------- the reader as it runs ----------

  datatype Event = Sample(record: Record) | Lost(record: Record)

  function EventOf(r: Record): Option<Event>
    requires |r| >= HEADER_LEN
  {
    if RecordType(r) == RECORD_SAMPLE then Some(Sample(r))
    else if RecordType(r) == RECORD_LOST then Some(Lost(r))
    else None
  }

  class PerfMap {
    const data: array<byte>
    var dataHead: u64
    var dataTail: u64
    var buf: seq<byte>
    ghost var pending: seq<Record>

    ghost function View(): Ring
      reads this, data
    {
      Ring(data[..], dataHead, dataTail)
    }

    ghost predicate Valid()
      reads this, data
    {
      Holds(View(), pending)
    }

    constructor (data: array<byte>, counter: u64)
      requires GoodSize(data.Length) && counter % 8 == 0
      ensures Valid() && pending == [] && this.data == data
    {
      this.data := data;
      dataHead, dataTail, buf, pending := counter, counter, [], [];
    }

    /** PerfMap::read as one atomic step. A record that is neither a sample nor a loss report is
        consumed and reported as nothing. */
    method Read() returns (ev: Option<Event>)
      requires Valid()
      modifies this`dataTail, this`buf, this`pending
      ensures Valid()
      ensures old(pending) == [] ==> ev == None && pending == [] && dataTail == old(dataTail)
      ensures old(pending) != [] ==>
                var r := old(pending)[0];
                pending == old(pending)[1..] && buf == r && |r| >= HEADER_LEN && ev == EventOf(r)
    {
      hide Holds, RecordSize, RecordType, WellFormed;
      ghost var ring := View();
      EmptyWhenEqual(ring, pending);
      if dataTail == dataHead {
        return None;
      }
      ReadRefines(ring, pending);
      var rawSize := data.Length;
      var start := dataTail % rawSize;
      var header := data[start..start + HEADER_LEN];
      assert header == ring.data[start..start + HEADER_LEN];
      HeaderSlice(ring.data, start);
      var size := RecordSize(header);
      var end := (dataTail + size) % TWO_64 % rawSize;
      buf := [];
      if end < start {
        var len := rawSize - start;
        buf := buf + data[start..];
        buf := buf + data[..size - len];
      } else {
        buf := buf + data[start..start + size];
      }
      assert buf == CopyOut(ring.data, start, end, size);
      dataTail := (dataTail + size) % TWO_64;
      pending := pending[1..];
      if RecordType(header) == RECORD_SAMPLE {
        ev := Some(Sample(buf));
      } else if RecordType(header) == RECORD_LOST {
        ev := Some(Lost(buf));
      } else {
        ev := None;
      }
    }
  }

  lemma HeaderSlice(data: seq<byte>, start: nat)
    requires start + HEADER_LEN <= |data|
    ensures RecordSize(data[start..start + HEADER_LEN]) == RecordSize(data[start..])
    ensures RecordType(data[start..start + HEADER_LEN]) == RecordType(data[start..])
  {
    assert data[start..start + HEADER_LEN][..4] == data[start..][..4];
  }

  // ---------- draining ----------

  ghost predicate Framed(rs: seq<Record>) {
    forall i :: 0 <= i < |rs| ==> WellFormed(rs[i])
  }

  /** How many pending records a drain consumes: up to and including the first one that is neither
      a sample nor a loss report. */
  ghost function Drained(rs: seq<Record>): (n: nat)
    requires Framed(rs)
    ensures n <= |rs|
  {
    if rs == [] then 0
    else if EventOf(rs[0]).None? then 1
    else 1 + Drained(rs[1..])
  }

  function Payload(r: Record): seq<byte>
    requires WellFormed(r) && RecordType(r) == RECORD_SAMPLE
  {
    r[12..12 + PayloadLen(r)]
  }

  /** The payloads of the samples among the records, in order. */
  ghost function Messages(rs: seq<Record>): (ms: seq<seq<byte>>)
    requires Framed(rs)
  {
    if rs == [] then []
    else (if RecordType(rs[0]) == RECORD_SAMPLE then [Payload(rs[0])] else []) + Messages(rs[1..])
  }

  /** PerfMessageStream::read_messages: the sample payloads of everything it consumed, in order. */
  method ReadMessages(perf: PerfMap) returns (ret: seq<seq<byte>>)
    requires perf.Valid()
    modifies perf
    ensures perf.Valid() && perf.dataHead == old(perf.dataHead)
    ensures Framed(old(perf.pending))
    ensures perf.pending == old(perf.pending)[Drained(old(perf.pending))..]
    ensures ret == Messages(old(perf.pending)[..Drained(old(perf.pending))])
  {
    hide Holds, WellFormed, RecordType;
    ghost var all := perf.pending;
    ghost var k := 0;
    HeldFramed(perf.View(), all);
    ret := [];
    while true
      invariant perf.Valid() && perf.dataHead == old(perf.dataHead)
      invariant k <= |all| && perf.pending == all[k..] && Framed(all[k..]) && Framed(all[..k])
      invariant Drained(all) == k + Drained(all[k..])
      invariant ret == Messages(all[..k])
      decreases |all| - k
    {
      var ev := perf.Read();
      if k < |all| {
        assert all[..k + 1] == all[..k] + [all[k]] && all[k..][1..] == all[k + 1..];
        MessagesSnoc(all[..k], all[k]);
      }
      if ev.None? {
        break;
      }
      if ev.value.Sample? {
        ret := ret + [Payload(ev.value.record)];
      }
      k := k + 1;
    }
  }

  lemma HeldFramed(ring: Ring, rs: seq<Record>)
    requires Holds(ring, rs)
    ensures Framed(rs)
  {
  }

  lemma {:induction false} MessagesSnoc(rs: seq<Record>, r: Record)
    requires Framed(rs) && WellFormed(r)
    ensures Framed(rs + [r])
    ensures Messages(rs + [r]) == Messages(rs) + if RecordType(r) == RECORD_SAMPLE then [Payload(r)] else []
  {
    if rs == [] {
      assert Messages([r]) == Messages(rs + [r]);
      assert [r][1..] == [];
    } else {
      assert (rs + [r])[1..] == rs[1..] + [r];
      MessagesSnoc(rs[1..], r);
    }
  }

  /** When only samples and loss reports are pending, a drain takes them all; otherwise it stops just
      past the first other record. */
  lemma {:induction false} DrainedExactly(rs: seq<Record>)
    requires Framed(rs)
    ensures forall i :: 0 <= i < Drained(rs) - 1 ==> EventOf(rs[i]).Some?
    ensures Drained(rs) < |rs| ==> Drained(rs) >= 1 && EventOf(rs[Drained(rs) - 1]).None?
    ensures (forall i :: 0 <= i < |rs| ==> EventOf(rs[i]).Some?) ==>
              Drained(rs) == |rs| && rs[Drained(rs)..] == []
  {
    if rs != [] {
      DrainedExactly(rs[1..]);
    }
  }

  // ---------- against the writer ----------

  /** What a kernel-side program writes: a message with the padding that rounds its record up, a report
      of lost samples (an id and a count), or a record of some other type. */
  datatype Written =
    | Message(data: seq<byte>, pad: nat)
    | LossReport(body: seq<byte>)
    | OtherRecord(kind: byte, body: seq<byte>)

  predicate CanWrite(w: Written) {
    match w
    case Message(data, pad) => 12 + |data| + pad < 0x1_0000 && (12 + |data| + pad) % 8 == 0
    case LossReport(body) => |body| == 16
    case OtherRecord(kind, body) => kind != 9 && kind != 2 && 8 + |body| < 0x1_0000 && |body| % 8 == 0
  }

  /** Type, misc and size, each lowest byte first (struct perf_event_header). */
  function HeaderBytes(kind: byte, size: nat): (b: seq<byte>)
    requires size < 0x1_0000
    ensures |b| == 8
  {
    [kind, 0, 0, 0, 0, 0, size % 0x100, size / 0x100]
  }

  /** The bytes of a record as they stand in the ring: a message is preceded by its length. */
  function RecordOf(w: Written): (r: Record)
    requires CanWrite(w)
  {
    match w
    case Message(data, pad) =>
      HeaderBytes(9, 12 + |data| + pad) + [|data| % 0x100, |data| / 0x100, 0, 0] + data + Zeros(pad)
    case LossReport(body) => HeaderBytes(2, 24) + body
    case OtherRecord(kind, body) => HeaderBytes(kind, 8 + |body|) + body
  }

  lemma HeaderRead(kind: byte, size: nat, rest: seq<byte>)
    requires size < 0x1_0000
    ensures var r := HeaderBytes(kind, size) + rest;
            RecordType(r) == kind && RecordSize(r) == size
  {
    var r := HeaderBytes(kind, size) + rest;
    assert r[..4] == [kind, 0, 0, 0];
  }

  lemma LengthRead(kind: byte, size: nat, data: seq<byte>, rest: seq<byte>)
    requires size < 0x1_0000 && |data| < 0x1_0000
    ensures var r := HeaderBytes(kind, size) + [|data| % 0x100, |data| / 0x100, 0, 0] + data + rest;
            PayloadLen(r) == |data| && r[12..12 + |data|] == data
  {
    var r := HeaderBytes(kind, size) + [|data| % 0x100, |data| / 0x100, 0, 0] + data + rest;
    assert r[8..12] == [|data| % 0x100, |data| / 0x100, 0, 0];
  }

  /** Every record written is well formed and reported for what it is; a message comes out as it went
      in, without its length and its padding. */
  lemma WrittenRead(w: Written)
    requires CanWrite(w)
    ensures var r := RecordOf(w);
            && WellFormed(r)
            && EventOf(r) == (match w
                              case Message(_, _) => Some(Sample(r))
                              case LossReport(_) => Some(Lost(r))
                              case OtherRecord(_, _) => None)
            && (w.Message? ==> RecordType(r) == 9 && Payload(r) == w.data)
            && (!w.Message? ==> RecordType(r) != 9)
  {
    hide HeaderBytes, RecordType, RecordSize, PayloadLen;
    match w
    case Message(data, pad) =>
      var n := 12 + |data| + pad;
      var len: seq<byte> := [|data| % 0x100, |data| / 0x100, 0, 0];
      assert RecordOf(w) == HeaderBytes(9, n) + (len + data + Zeros(pad));
      HeaderRead(9, n, len + data + Zeros(pad));
      LengthRead(9, n, data, Zeros(pad));
    case LossReport(body) => HeaderRead(2, 24, body);
    case OtherRecord(kind, body) => HeaderRead(kind, 8 + |body|, body);
  }

  ghost function Records(ws: seq<Written>): (rs: seq<Record>)
    requires forall i :: 0 <= i < |ws| ==> CanWrite(ws[i])
    ensures |rs| == |ws| && Framed(rs)
  {
    if ws == [] then [] else WrittenRead(ws[0]); [RecordOf(ws[0])] + Records(ws[1..])
  }

  function Sent(ws: seq<Written>): (ms: seq<seq<byte>>) {
    if ws == [] then [] else (if ws[0].Message? then [ws[0].data] else []) + Sent(ws[1..])
  }

  /** How many records a drain consumes, from what was written. */
  function UpToOther(ws: seq<Written>): (n: nat)
    ensures n <= |ws|
    ensures (forall i :: 0 <= i < |ws| ==> !ws[i].OtherRecord?) ==> n == |ws|
  {
    if ws == [] then 0 else if ws[0].OtherRecord? then 1 else 1 + UpToOther(ws[1..])
  }

  /** Draining a ring that holds what was written returns the messages sent, in order, byte for byte:
      all of them, or those before the first record of another type. */
  lemma {:induction false} DrainReturnsSent(ws: seq<Written>)
    requires forall i :: 0 <= i < |ws| ==> CanWrite(ws[i])
    ensures Drained(Records(ws)) == UpToOther(ws)
    ensures Messages(Records(ws)[..Drained(Records(ws))]) == Sent(ws[..UpToOther(ws)])
  {
    var rs := Records(ws);
    if ws != [] {
      WrittenRead(ws[0]);
      DrainReturnsSent(ws[1..]);
      hide RecordOf, EventOf, WellFormed, RecordType, Payload;
      var k := UpToOther(ws);
      assert rs[..k][0] == rs[0] && rs[..k][1..] == rs[1..][..k - 1];
      assert ws[..k][0] == ws[0] && ws[..k][1..] == ws[1..][..k - 1];
      if ws[0].OtherRecord? {
        assert k == 1;
      }
    }
  }
}
