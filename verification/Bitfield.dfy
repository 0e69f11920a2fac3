/** The bit-field container of the generated perf bindings: fields of up to 64 bits at any bit offset
    of a byte array. */
module Bitfield {
  import opened Arith

  // A value without its lowest i bits.
  function Shifted(v: nat, i: nat): (q: nat) {
    if i == 0 then v else Shifted(v, i - 1) / 2
  }

  // Bit i of a value.
  predicate BitOf(v: nat, i: nat) {
    Shifted(v, i) % 2 == 1
  }

  // ---------- one byte ----------

  function Mask(k: nat): (m: bv8)
    requires k < 8
    ensures m != 0
  {
    match k
    case 0 => 1 case 1 => 2 case 2 => 4 case 3 => 8
    case 4 => 16 case 5 => 32 case 6 => 64 case _ => 128
  }

  predicate ByteHas(b: bv8, k: nat)
    requires k < 8
  {
    b & Mask(k) == Mask(k)
  }

  function ByteWith(b: bv8, k: nat, val: bool): bv8
    requires k < 8
  {
    if val then b | Mask(k) else b & !Mask(k)
  }

  lemma MasksDisjoint(j: nat, k: nat)
    requires j < 8 && k < 8 && j != k
    ensures Mask(k) & Mask(j) == 0
  {
  }

  lemma MaskAlgebra(b: bv8, m: bv8, n: bv8)
    requires m != 0
    ensures (b | m) & m == m
    ensures (b & !m) & m == 0
    ensures m & n == 0 ==> (b | m) & n == b & n && (b & !m) & n == b & n
  {
  }

  lemma ByteBits(b: bv8, k: nat, val: bool, j: nat)
    requires j < 8 && k < 8
    ensures ByteHas(ByteWith(b, k, val), j) == if j == k then val else ByteHas(b, j)
  {
    hide Mask;
    MaskAlgebra(b, Mask(k), Mask(j));
    if j != k {
      MasksDisjoint(j, k);
    }
  }

  // ---------- the storage as a sequence ----------

  type Storage = seq<bv8>

  predicate Inside(s: Storage, i: nat) {
    i / 8 < |s|
  }

  function GetBit(s: Storage, i: nat): bool
    requires Inside(s, i)
  {
    ByteHas(s[i / 8], i % 8)
  }

  function SetBit(s: Storage, i: nat, val: bool): (s': Storage)
    requires Inside(s, i)
    ensures |s'| == |s|
  {
    s[i / 8 := ByteWith(s[i / 8], i % 8, val)]
  }

  lemma SetBitGet(s: Storage, i: nat, val: bool, j: nat)
    requires Inside(s, i) && Inside(s, j)
    ensures GetBit(SetBit(s, i, val), j) == if i == j then val else GetBit(s, j)
  {
    hide ByteHas, ByteWith;
    ByteBits(s[i / 8], i % 8, val, j % 8);
  }

  // A field of w bits at offset off lies inside the storage.
  predicate FieldInside(n: nat, off: nat, w: nat) {
    w <= 64 && off + w <= 8 * n
  }

  function Get(s: Storage, off: nat, w: nat): (v: nat)
    requires FieldInside(|s|, off, w)
  {
    if w == 0 then 0
    else Get(s, off, w - 1) + if GetBit(s, off + w - 1) then Pow2(w - 1) else 0
  }

  function Set(s: Storage, off: nat, w: nat, v: nat): (s': Storage)
    requires FieldInside(|s|, off, w)
    ensures |s'| == |s|
  {
    if w == 0 then s else SetBit(Set(s, off, w - 1, v), off + w - 1, BitOf(v, w - 1))
  }

  /** Setting a field writes exactly its own bits. */
  lemma {:induction false} SetBits(s: Storage, off: nat, w: nat, v: nat, j: nat)
    requires FieldInside(|s|, off, w) && Inside(s, j)
    ensures GetBit(Set(s, off, w, v), j) == if off <= j < off + w then BitOf(v, j - off) else GetBit(s, j)
  {
    hide BitOf, GetBit, SetBit;
    if w > 0 {
      SetBits(s, off, w - 1, v, j);
      SetBitGet(Set(s, off, w - 1, v), off + w - 1, BitOf(v, w - 1), j);
    }
  }

  // ---------- values ----------

  lemma SplitMod(v: nat, p: nat)
    requires p >= 1
    ensures v % (2 * p) == v % p + if v / p % 2 == 1 then p else 0
  {
    var q, r := v / p, v % p;
    var h, b := q / 2, q % 2;
    assert v == q * p + r && q == 2 * h + b;
    var x := r + b * p;
    assert v == h * (2 * p) + x by {
      assert q * p == 2 * h * p + b * p;
    }
    assert 0 <= x < 2 * p;
    ModUnique(v, h, x, 2 * p);
  }

  lemma Spread(h: int, b: int, p: int)
    ensures (2 * h + b) * p == h * (2 * p) + b * p
  {
  }

  lemma DivTwice(x: nat, p: nat)
    requires p >= 1
    ensures x / (2 * p) == x / p / 2
  {
    var q, r := x / p, x % p;
    var h, b := q / 2, q % 2;
    assert x == q * p + r;
    Spread(h, b, p);
    ModUnique(x, h, b * p + r, 2 * p);
  }

  lemma {:induction false} ShiftedQuotient(v: nat, k: nat)
    ensures Shifted(v, k) == v / Pow2(k)
  {
    if k == 0 {
      assert Pow2(0) == 1;
    } else {
      ShiftedQuotient(v, k - 1);
      DivTwice(v, Pow2(k - 1));
    }
  }

  /** A getter returns the number whose binary digits are the field's bits. */
  lemma {:induction false} GetDigits(s: Storage, off: nat, w: nat, v: nat)
    requires FieldInside(|s|, off, w)
    requires forall j :: off <= j < off + w ==> GetBit(s, j) == BitOf(v, j - off)
    ensures Get(s, off, w) == v % Pow2(w)
  {
    if w > 0 {
      hide GetBit;
      GetDigits(s, off, w - 1, v);
      ShiftedQuotient(v, w - 1);
      SplitMod(v, Pow2(w - 1));
    }
  }

  /** Reading back a field gives the value set, cut to the field's width. */
  lemma GetAfterSet(s: Storage, off: nat, w: nat, v: nat)
    requires FieldInside(|s|, off, w)
    ensures Get(Set(s, off, w, v), off, w) == v % Pow2(w)
  {
    hide GetBit, Set;
    forall j | off <= j < off + w ensures GetBit(Set(s, off, w, v), j) == BitOf(v, j - off) {
      SetBits(s, off, w, v, j);
    }
    GetDigits(Set(s, off, w, v), off, w, v);
  }

  predicate Apart(off: nat, w: nat, off2: nat, w2: nat) {
    off + w <= off2 || off2 + w2 <= off
  }

  lemma {:induction false} GetSameBits(s: Storage, t: Storage, off: nat, w: nat)
    requires |s| == |t| && FieldInside(|s|, off, w)
    requires forall j :: off <= j < off + w ==> GetBit(s, j) == GetBit(t, j)
    ensures Get(s, off, w) == Get(t, off, w)
  {
    if w > 0 {
      hide GetBit;
      GetSameBits(s, t, off, w - 1);
    }
  }

  /** Every field apart from the one that is set keeps its value. */
  lemma GetUnaffected(s: Storage, off: nat, w: nat, v: nat, off2: nat, w2: nat)
    requires FieldInside(|s|, off, w) && FieldInside(|s|, off2, w2) && Apart(off, w, off2, w2)
    ensures Get(Set(s, off, w, v), off2, w2) == Get(s, off2, w2)
  {
    hide GetBit, Set;
    forall j | off2 <= j < off2 + w2 ensures GetBit(Set(s, off, w, v), j) == GetBit(s, j) {
      SetBits(s, off, w, v, j);
    }
    GetSameBits(Set(s, off, w, v), s, off2, w2);
  }

  // ---------- the storage as a number ----------

  lemma PowersOfTwo()
    ensures Pow2(0) == 1 && Pow2(1) == 2 && Pow2(2) == 4 && Pow2(3) == 8
    ensures Pow2(4) == 16 && Pow2(5) == 32 && Pow2(6) == 64 && Pow2(7) == 128 && Pow2(8) == 256
  {
    assert Pow2(4) == 2 * Pow2(3) && Pow2(3) == 2 * Pow2(2) && Pow2(2) == 2 * Pow2(1) && Pow2(1) == 2 * Pow2(0);
    assert Pow2(8) == 2 * Pow2(7) && Pow2(7) == 2 * Pow2(6) && Pow2(6) == 2 * Pow2(5) && Pow2(5) == 2 * Pow2(4);
  }

  lemma Bit0(b: bv8)
    ensures b & 1 == 1 <==> b as nat % 2 == 1
  {
  }

  lemma Bit1(b: bv8)
    ensures b & 2 == 2 <==> b as nat / 2 % 2 == 1
  {
  }

  lemma Bit2(b: bv8)
    ensures b & 4 == 4 <==> b as nat / 4 % 2 == 1
  {
  }

  lemma Bit3(b: bv8)
    ensures b & 8 == 8 <==> b as nat / 8 % 2 == 1
  {
  }

  lemma Bit4(b: bv8)
    ensures b & 16 == 16 <==> b as nat / 16 % 2 == 1
  {
  }

  lemma Bit5(b: bv8)
    ensures b & 32 == 32 <==> b as nat / 32 % 2 == 1
  {
  }

  lemma Bit6(b: bv8)
    ensures b & 64 == 64 <==> b as nat / 64 % 2 == 1
  {
  }

  lemma Bit7(b: bv8)
    ensures b & 128 == 128 <==> b as nat / 128 % 2 == 1
  {
  }

  lemma ShiftedBy(v: nat, k: nat, p: nat)
    requires Pow2(k) == p
    ensures Shifted(v, k) == v / p
  {
    ShiftedQuotient(v, k);
  }

  lemma LowDigit(b: bv8, k: nat)
    requires k < 4
    ensures ByteHas(b, k) <==> BitOf(b as nat, k)
  {
    hide Pow2, Shifted;
    PowersOfTwo();
    if k == 0 {
      Bit0(b);
      ShiftedBy(b as nat, 0, 1);
    } else if k == 1 {
      Bit1(b);
      ShiftedBy(b as nat, 1, 2);
    } else if k == 2 {
      Bit2(b);
      ShiftedBy(b as nat, 2, 4);
    } else {
      Bit3(b);
      ShiftedBy(b as nat, 3, 8);
    }
  }

  lemma HighDigit(b: bv8, k: nat)
    requires 4 <= k < 8
    ensures ByteHas(b, k) <==> BitOf(b as nat, k)
  {
    hide Pow2, Shifted;
    PowersOfTwo();
    if k == 4 {
      Bit4(b);
      ShiftedBy(b as nat, 4, 16);
    } else if k == 5 {
      Bit5(b);
      ShiftedBy(b as nat, 5, 32);
    } else if k == 6 {
      Bit6(b);
      ShiftedBy(b as nat, 6, 64);
    } else {
      Bit7(b);
      ShiftedBy(b as nat, 7, 128);
    }
  }

  lemma ByteDigit(b: bv8, k: nat)
    requires k < 8
    ensures ByteHas(b, k) <==> BitOf(b as nat, k)
  {
    hide ByteHas, BitOf;
    if k < 4 {
      LowDigit(b, k);
    } else {
      HighDigit(b, k);
    }
  }

  /** Bit `i` of the storage is binary digit `i % 8`, lowest first, of byte `i / 8`. */
  lemma BitIsDigit(s: Storage, i: nat)
    requires Inside(s, i)
    ensures GetBit(s, i) <==> BitOf(s[i / 8] as nat, i % 8)
  {
    hide ByteHas, BitOf;
    ByteDigit(s[i / 8], i % 8);
  }

  lemma {:induction false} DigitsShift(v: nat, m: nat, k: nat)
    ensures Shifted(v, m + k) == Shifted(Shifted(v, m), k)
  {
    if k > 0 {
      DigitsShift(v, m, k - 1);
    }
  }

  lemma ByteOfDigits(b: bv8, x: nat)
    requires forall k :: 0 <= k < 8 ==> BitOf(b as nat, k) == BitOf(x, k)
    ensures b as nat == x % 0x100
  {
    hide BitOf;
    var s := [b];
    forall k | 0 <= k < 8 ensures GetBit(s, k) == BitOf(b as nat, k) {
      BitIsDigit(s, k);
    }
    PowersOfTwo();
    GetDigits(s, 0, 8, x);
    GetDigits(s, 0, 8, b as nat);
  }

  /** The storage holds the number lowest byte first: setting all of it to `v` makes byte `j` the
      `j`-th base-256 digit of `v`. */
  lemma SetAsNumber(s: Storage, v: nat, j: nat)
    requires j < |s| <= 8
    ensures Set(s, 0, 8 * |s|, v)[j] as nat == v / Pow2(8 * j) % 0x100
  {
    var t := Set(s, 0, 8 * |s|, v);
    forall k | 0 <= k < 8 ensures BitOf(t[j] as nat, k) == BitOf(Shifted(v, 8 * j), k) {
      DigitSet(s, v, j, k);
    }
    hide Set, BitOf, Shifted;
    ByteOfDigits(t[j], Shifted(v, 8 * j));
    ShiftedQuotient(v, 8 * j);
  }

  lemma DigitSet(s: Storage, v: nat, j: nat, k: nat)
    requires j < |s| <= 8 && k < 8
    ensures BitOf(Set(s, 0, 8 * |s|, v)[j] as nat, k) == BitOf(Shifted(v, 8 * j), k)
  {
    hide Set, Shifted, GetBit;
    var i := 8 * j + k;
    assert i / 8 == j && i % 8 == k;
    SetBits(s, 0, 8 * |s|, v, i);
    BitIsDigit(Set(s, 0, 8 * |s|, v), i);
    DigitsShift(v, 8 * j, k);
  }

  // ---------- the container as it runs ----------

  class BitfieldUnit {
    const storage: array<bv8>

    constructor (size: nat)
      ensures fresh(storage) && storage.Length == size
    {
      storage := new bv8[size](_ => 0);
    }

    method SetFieldBit(index: nat, val: bool)
      requires index / 8 < storage.Length
      modifies storage
      ensures storage[..] == SetBit(old(storage[..]), index, val)
    {
      var mask := Mask(index % 8);
      if val {
        storage[index / 8] := storage[index / 8] | mask;
      } else {
        storage[index / 8] := storage[index / 8] & !mask;
      }
    }

    method GetField(off: nat, width: nat) returns (val: nat)
      requires FieldInside(storage.Length, off, width)
      ensures val == Get(storage[..], off, width)
    {
      hide Mask;
      val := 0;
      for i := 0 to width
        invariant val == Get(storage[..], off, i)
      {
        var mask := Mask((i + off) % 8);
        assert Get(storage[..], off, i + 1) ==
               Get(storage[..], off, i) + if GetBit(storage[..], off + i) then Pow2(i) else 0;
        if storage[(i + off) / 8] & mask == mask {
          val := val + Pow2(i);
        }
      }
    }

    method SetField(off: nat, width: nat, val: nat)
      requires FieldInside(storage.Length, off, width)
      modifies storage
      ensures storage[..] == Set(old(storage[..]), off, width, val)
    {
      for i := 0 to width
        invariant storage[..] == Set(old(storage[..]), off, i, val)
      {
        SetFieldBit(off + i, BitOf(val, i));
      }
    }
  }

  // ---------- packing all fields of a record ----------

  // Offsets and widths, in increasing order without overlap.
  predicate Layout(fields: seq<(nat, nat)>, n: nat) {
    && (forall k :: 0 <= k < |fields| ==> FieldInside(n, fields[k].0, fields[k].1))
    && (forall k :: 0 <= k < |fields| - 1 ==> fields[k].0 + fields[k].1 <= fields[k + 1].0)
  }

  /** new_bitfield_1: sets one field after the other. */
  function Pack(s: Storage, fields: seq<(nat, nat)>, vals: seq<nat>): (s': Storage)
    requires |vals| == |fields| && Layout(fields, |s|)
    ensures |s'| == |s|
  {
    if fields == [] then s
    else
      var n := |fields| - 1;
      Set(Pack(s, fields[..n], vals[..n]), fields[n].0, fields[n].1, vals[n])
  }

  lemma {:induction false} LayoutApart(fields: seq<(nat, nat)>, n: nat, j: nat, k: nat)
    requires Layout(fields, n) && j < k < |fields|
    ensures fields[j].0 + fields[j].1 <= fields[k].0
  {
    if j < k - 1 {
      LayoutApart(fields, n, j, k - 1);
    }
  }

  /** Every getter returns the packed value of its field, cut to its width. */
  lemma {:induction false} PackedFields(s: Storage, fields: seq<(nat, nat)>, vals: seq<nat>, k: nat)
    requires |vals| == |fields| && Layout(fields, |s|) && k < |fields|
    ensures Get(Pack(s, fields, vals), fields[k].0, fields[k].1) == vals[k] % Pow2(fields[k].1)
  {
    hide Get, Set;
    var n := |fields| - 1;
    var before := Pack(s, fields[..n], vals[..n]);
    if k == n {
      GetAfterSet(before, fields[n].0, fields[n].1, vals[n]);
    } else {
      LayoutApart(fields, |s|, k, n);
      GetUnaffected(before, fields[n].0, fields[n].1, vals[n], fields[k].0, fields[k].1);
      PackedFields(s, fields[..n], vals[..n], k);
    }
  }

  // perf_event_attr, perf_event_mmap_page, perf_mem_data_src and perf_branch_entry.
  const EVENT_ATTR: seq<(nat, nat)> :=
    [(0, 1), (1, 1), (2, 1), (3, 1), (4, 1), (5, 1), (6, 1), (7, 1), (8, 1), (9, 1), (10, 1), (11, 1),
     (12, 1), (13, 1), (14, 1), (15, 2), (17, 1), (18, 1), (19, 1), (20, 1), (21, 1), (22, 1), (23, 1),
     (24, 1), (25, 1), (26, 1), (27, 1), (28, 1), (29, 35)]
  const MMAP_PAGE: seq<(nat, nat)> := [(0, 1), (1, 1), (2, 1), (3, 1), (4, 1), (5, 59)]
  const MEM_DATA_SRC: seq<(nat, nat)> :=
    [(0, 5), (5, 14), (19, 5), (24, 2), (26, 7), (33, 4), (37, 1), (38, 2), (40, 24)]
  const BRANCH_ENTRY: seq<(nat, nat)> := [(0, 1), (1, 1), (2, 1), (3, 1), (4, 16), (20, 4), (24, 40)]

  /** The fields follow each other without gaps and fill `n` bytes. */
  predicate Tiles(fields: seq<(nat, nat)>, n: nat) {
    && fields != [] && fields[0].0 == 0 && fields[|fields| - 1].0 + fields[|fields| - 1].1 == 8 * n
    && forall k :: 0 <= k < |fields| - 1 ==> fields[k].0 + fields[k].1 == fields[k + 1].0
  }

  /** The four records that are packed into eight bytes lay their fields out without overlap and
      without gaps. */
  lemma RecordLayouts()
    ensures Layout(EVENT_ATTR, 8) && Layout(MMAP_PAGE, 8) && Layout(MEM_DATA_SRC, 8) && Layout(BRANCH_ENTRY, 8)
    ensures Tiles(EVENT_ATTR, 8) && Tiles(MMAP_PAGE, 8) && Tiles(MEM_DATA_SRC, 8) && Tiles(BRANCH_ENTRY, 8)
  {
    hide Layout, Tiles;
    EventAttrLayout();
    OtherLayouts();
  }

  // In a row of fields that tiles the bytes, none overlaps another.
  lemma {:induction false} TilesInside(fields: seq<(nat, nat)>, n: nat, k: nat)
    requires Tiles(fields, n) && k < |fields|
    ensures fields[k].0 + fields[k].1 <= 8 * n
    decreases |fields| - k
  {
    if k < |fields| - 1 {
      TilesInside(fields, n, k + 1);
    }
  }

  lemma TilesLayout(fields: seq<(nat, nat)>, n: nat)
    requires Tiles(fields, n) && forall k :: 0 <= k < |fields| ==> fields[k].1 <= 64
    ensures Layout(fields, n)
  {
    forall k | 0 <= k < |fields| ensures FieldInside(n, fields[k].0, fields[k].1) {
      TilesInside(fields, n, k);
    }
  }

  lemma EventAttrLayout()
    ensures Layout(EVENT_ATTR, 8) && Tiles(EVENT_ATTR, 8)
  {
    hide Layout, Tiles;
    EventAttrTiles();
    TilesLayout(EVENT_ATTR, 8);
  }

  lemma EventAttrTiles()
    ensures Tiles(EVENT_ATTR, 8) && forall k :: 0 <= k < |EVENT_ATTR| ==> EVENT_ATTR[k].1 <= 64
  {
    assert forall k :: 0 <= k < 15 ==> EVENT_ATTR[k] == (k, 1);
    assert EVENT_ATTR[15] == (15, 2) && EVENT_ATTR[28] == (29, 35);
    assert forall k :: 16 <= k < 28 ==> EVENT_ATTR[k] == (k + 1, 1);
  }

  lemma OtherLayouts()
    ensures Layout(MMAP_PAGE, 8) && Layout(MEM_DATA_SRC, 8) && Layout(BRANCH_ENTRY, 8)
    ensures Tiles(MMAP_PAGE, 8) && Tiles(MEM_DATA_SRC, 8) && Tiles(BRANCH_ENTRY, 8)
  {
    hide Layout;
    TilesLayout(MMAP_PAGE, 8);
    TilesLayout(MEM_DATA_SRC, 8);
    TilesLayout(BRANCH_ENTRY, 8);
  }
}
