/** Per-CPU map values: one slot per CPU, each rounded up to a multiple of eight bytes. */
module PerCpu {
  import opened Arith
  import opened Bytes

  // ---------- rounding ----------

  /** Bitwise or of two numbers. */
  function Or(a: nat, b: nat): (c: nat) {
    if a == 0 && b == 0 then 0
    else 2 * Or(a / 2, b / 2) + if a % 2 == 1 || b % 2 == 1 then 1 else 0
  }

  /** round_up, for a value of at least one byte. */
  function RoundUp(size: nat, unit: nat): (r: nat)
    requires size >= 1 && unit >= 1
  {
    Or(size - 1, unit - 1) + 1
  }

  lemma {:induction false} OrLowBits(x: nat, k: nat)
    ensures Or(x, Pow2(k) - 1) == x / Pow2(k) * Pow2(k) + (Pow2(k) - 1)
  {
    hide Or;
    if k == 0 {
      OrZero(x);
    } else {
      var p := Pow2(k - 1);
      assert Pow2(k) == 2 * p;
      OrLowBits(x / 2, k - 1);
      OrOdd(x, p);
      HalfDiv(x, p);
      Doubled(x / 2 / p, p);
    }
  }

  lemma OrOdd(x: nat, p: nat)
    requires p >= 1
    ensures Or(x, 2 * p - 1) == 2 * Or(x / 2, p - 1) + 1
  {
    assert (2 * p - 1) / 2 == p - 1;
  }

  lemma Doubled(q: int, p: int)
    ensures 2 * (q * p + (p - 1)) + 1 == q * (2 * p) + (2 * p - 1)
  {
  }

  lemma {:induction false} OrZero(x: nat)
    ensures Or(x, 0) == x
  {
    if x > 0 {
      OrZero(x / 2);
    }
  }

  lemma HalfDiv(x: nat, p: nat)
    requires p >= 1
    ensures x / 2 / p == x / (2 * p)
  {
    var h, b := x / 2, x % 2;
    var q, r := h / p, h % p;
    assert h == q * p + r;
    var s := 2 * r + b;
    assert x == q * (2 * p) + s by {
      assert 2 * (q * p) == q * (2 * p);
    }
    ModUnique(x, q, s, 2 * p);
  }

  /** The rounded size is the least multiple of the unit that is not below the size. */
  lemma RoundUpLeast(size: nat, k: nat)
    requires size >= 1
    ensures var unit, r := Pow2(k), RoundUp(size, Pow2(k));
            && r % unit == 0 && size <= r < size + unit
            && forall m: nat :: m * unit >= size ==> m * unit >= r
  {
    hide Pow2, Or;
    OrLowBits(size - 1, k);
    LeastMultiple(size, Pow2(k));
  }

  lemma LeastMultiple(size: nat, unit: nat)
    requires size >= 1 && unit >= 1
    ensures var r := (size - 1) / unit * unit + unit;
            r % unit == 0 && size <= r < size + unit && forall m: nat :: m * unit >= size ==> m * unit >= r
  {
    var q := (size - 1) / unit;
    var r := q * unit + unit;
    assert size - 1 == q * unit + (size - 1) % unit;
    Next(q, unit);
    ModUnique(r, q + 1, 0, unit);
    forall m: nat | m * unit >= size ensures m * unit >= r {
      if m <= q {
        MulMonotone(m, q, unit);
      } else {
        MulMonotone(q + 1, m, unit);
      }
    }
  }

  lemma Next(q: nat, unit: nat)
    ensures (q + 1) * unit == q * unit + unit
  {
  }

  lemma MulMonotone(a: int, b: int, n: int)
    requires a <= b && n >= 0
    ensures a * n <= b * n
  {
    assert (b - a) * n >= 0;
    assert b * n == a * n + (b - a) * n;
  }

  // ---------- slots ----------

  /** Bytes per CPU. */
  function Slot(size: nat): (n: nat)
    requires size >= 1
    ensures n % 8 == 0 && size <= n < size + 8
  {
    assert Pow2(3) == 8 by {
      assert Pow2(0) == 1 && Pow2(1) == 2 && Pow2(2) == 4;
    }
    RoundUpLeast(size, 3);
    RoundUp(size, 8)
  }

  predicate Sized(values: seq<seq<byte>>, size: nat) {
    forall i :: 0 <= i < |values| ==> |values[i]| == size
  }

  // Where slot i begins.
  function Base(slot: nat, i: nat): (b: nat) {
    slot * i
  }

  /** Slots follow each other without overlap. */
  lemma BaseStep(slot: nat, i: nat)
    ensures Base(slot, 0) == 0 && Base(slot, i + 1) == Base(slot, i) + slot
  {
  }

  lemma BaseMonotone(slot: nat, i: nat, j: nat)
    requires i < j
    ensures Base(slot, i) + slot <= Base(slot, j)
  {
    MulMonotone(i + 1, j, slot);
  }

  /** The buffer for the kernel: each value, then zeros to the end of its slot. */
  function Pack(values: seq<seq<byte>>, size: nat, slot: nat): (b: seq<byte>)
    requires Sized(values, size) && size <= slot
    ensures |b| == Base(slot, |values|)
  {
    if values == [] then BaseStep(slot, 0); []
    else
      var n := |values| - 1;
      BaseStep(slot, n);
      Pack(values[..n], size, slot) + values[n] + Zeros(slot - size)
  }

  /** Slot i of the buffer begins with value i. */
  lemma {:induction false} PackSlice(values: seq<seq<byte>>, size: nat, slot: nat, i: nat)
    requires Sized(values, size) && size <= slot && i < |values|
    ensures Base(slot, i) + size <= Base(slot, |values|)
    ensures Pack(values, size, slot)[Base(slot, i)..Base(slot, i) + size] == values[i]
  {
    hide Base;
    var n := |values| - 1;
    BaseStep(slot, n);
    BaseMonotone(slot, i, |values|);
    if i < n {
      BaseMonotone(slot, i, n);
      PackSlice(values[..n], size, slot, i);
      var b := Pack(values[..n], size, slot);
      assert b[Base(slot, i)..Base(slot, i) + size] == values[i];
      assert Pack(values, size, slot)[..|b|] == b;
    }
  }

  /** The rest of each slot is zero. */
  lemma {:induction false} PackPadding(values: seq<seq<byte>>, size: nat, slot: nat, i: nat)
    requires Sized(values, size) && size <= slot && i < |values|
    ensures Base(slot, i) + slot <= Base(slot, |values|)
    ensures Pack(values, size, slot)[Base(slot, i) + size..Base(slot, i) + slot] == Zeros(slot - size)
  {
    hide Base;
    var n := |values| - 1;
    BaseStep(slot, n);
    BaseMonotone(slot, i, |values|);
    if i < n {
      BaseMonotone(slot, i, n);
      PackPadding(values[..n], size, slot, i);
      var b := Pack(values[..n], size, slot);
      assert Pack(values, size, slot)[..|b|] == b;
    }
  }

  lemma PackNone(size: nat, slot: nat)
    requires size <= slot
    ensures Pack([], size, slot) == []
  {
  }

  lemma PackStep(values: seq<seq<byte>>, size: nat, slot: nat, i: nat, buf: seq<byte>)
    requires Sized(values, size) && size <= slot && i < |values| && Base(slot, i) + slot <= |buf|
    requires buf == Pack(values[..i], size, slot) + Zeros(|buf| - Base(slot, i))
    ensures Base(slot, i + 1) <= |buf|
    ensures Overwrite(buf, Base(slot, i), values[i]) ==
            Pack(values[..i + 1], size, slot) + Zeros(|buf| - Base(slot, i + 1))
  {
    BaseStep(slot, i);
    hide Base;
    var b := Pack(values[..i], size, slot);
    assert values[..i + 1][..i] == values[..i];
    assert Pack(values[..i + 1], size, slot) == b + values[i] + Zeros(slot - size);
    assert buf[..Base(slot, i)] == b;
    assert buf[Base(slot, i) + size..] == Zeros(slot - size) + Zeros(|buf| - Base(slot, i) - slot);
  }

  /** The loop of bpf_percpu_map_set that fills the buffer. */
  method PackValues(values: seq<seq<byte>>, size: nat, slot: nat) returns (alloc: array<byte>)
    requires Sized(values, size) && size <= slot
    ensures fresh(alloc) && alloc[..] == Pack(values, size, slot)
  {
    hide Base, Pack;
    var count := |values|;
    alloc := new byte[Base(slot, count)](_ => 0);
    assert alloc[..] == Zeros(alloc.Length);
    BaseStep(slot, 0);
    PackNone(size, slot);
    for i := 0 to count
      invariant Base(slot, i) <= alloc.Length
      invariant alloc[..] == Pack(values[..i], size, slot) + Zeros(alloc.Length - Base(slot, i))
    {
      BaseStep(slot, i);
      BaseMonotone(slot, i, count);
      ghost var before := alloc[..];
      WriteAt(alloc, Base(slot, i), values[i]);
      PackStep(values, size, slot, i, before);
    }
    assert values[..count] == values;
  }

  function Unpack(data: seq<byte>, count: nat, size: nat, slot: nat): (values: seq<seq<byte>>)
    requires size <= slot && |data| == Base(slot, count)
  {
    seq(count, i requires 0 <= i < count => BaseMonotone(slot, i, count); data[Base(slot, i)..Base(slot, i) + size])
  }

  /** Reading back what was packed gives the same values, for every size and every CPU count. */
  lemma UnpackPack(values: seq<seq<byte>>, size: nat, slot: nat)
    requires Sized(values, size) && size <= slot
    ensures Unpack(Pack(values, size, slot), |values|, size, slot) == values
  {
    hide Base, Pack;
    forall i | 0 <= i < |values|
      ensures Base(slot, i) + size <= Base(slot, |values|)
      ensures Pack(values, size, slot)[Base(slot, i)..Base(slot, i) + size] == values[i]
    {
      PackSlice(values, size, slot, i);
    }
  }

  /** The loop of bpf_percpu_map_get that reads the values back. */
  method UnpackValues(data: seq<byte>, count: nat, size: nat, slot: nat) returns (values: seq<seq<byte>>)
    requires size <= slot && |data| == Base(slot, count)
    ensures values == Unpack(data, count, size, slot)
  {
    hide Base;
    values := [];
    for i := 0 to count
      invariant |values| == i && forall j :: 0 <= j < i ==> values[j] == Unpack(data, count, size, slot)[j]
    {
      BaseMonotone(slot, i, count);
      values := values + [data[Base(slot, i)..Base(slot, i) + size]];
    }
  }

  // ---------- set and get through the kernel ----------

  /** A per-CPU map whose values are stored by the kernel as whole buffers. */
  class PerCpuMap {
    var store: map<nat, seq<byte>>
    const size: nat
    const cpus: nat

    ghost predicate Valid()
      reads this
    {
      size >= 1 && forall k :: k in store ==> |store[k]| == Base(Slot(size), cpus)
    }

    constructor (size: nat, cpus: nat)
      requires size >= 1
      ensures Valid() && this.size == size && this.cpus == cpus && store == map[]
    {
      this.size, this.cpus, store := size, cpus, map[];
    }

    /** bpf_percpu_map_set; `accepted` is the kernel's answer to the update. */
    method SetValues(key: nat, values: seq<seq<byte>>, accepted: bool) returns (ok: bool)
      requires Valid() && Sized(values, size)
      modifies this
      ensures Valid()
      ensures ok <==> |values| == cpus && accepted
      ensures store == if ok then old(store)[key := Pack(values, size, Slot(size))] else old(store)
    {
      if |values| != cpus { return false; }
      var valueSize := Slot(size);
      var alloc := PackValues(values, size, valueSize);
      if !accepted { return false; }
      store := store[key := alloc[..]];
      return true;
    }

    /** bpf_percpu_map_get. */
    method GetValues(key: nat) returns (r: Option<seq<seq<byte>>>)
      requires Valid()
      ensures r == if key in store then Some(Unpack(store[key], cpus, size, Slot(size))) else None
    {
      var valueSize := Slot(size);
      if key !in store { return None; }
      var values := UnpackValues(store[key], cpus, size, valueSize);
      return Some(values);
    }
  }
}
