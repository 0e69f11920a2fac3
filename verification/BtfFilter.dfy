/** Filtering the types of a section: which survive, how they are renumbered, what stays the same. */
module BtfFilter {
  import opened Bytes
  import opened BtfTypes
  import opened BtfParse
  import opened BtfGraph
  import opened BtfRenumber

  // ---------- what filtering does, as functions of the types ----------

  function GraphOf(types: seq<BtfType>): (g: seq<seq<u32>>)
    ensures |g| == |types|
  {
    seq(|types|, i requires 0 <= i < |types| => Refs(types[i]))
  }

  predicate RejectedAt(types: seq<BtfType>, f: BtfType -> bool, id: int) {
    1 <= id <= |types| && !f(types[id - 1])
  }

  function Rejected(types: seq<BtfType>, f: BtfType -> bool): set<u32> {
    set id: u32 | 1 <= id <= |types| && RejectedAt(types, f, id)
  }

  predicate CanRewrite(t: BtfType, ids: map<u32, u32>) {
    forall r :: r in Refs(t) ==> r in ids
  }

  function NewRefs(t: BtfType, ids: map<u32, u32>): (rs: seq<u32>)
    requires CanRewrite(t, ids)
  {
    seq(|Refs(t)|, i requires 0 <= i < |Refs(t)| => ids[Refs(t)[i]])
  }

  function Rewrite(t: BtfType, ids: map<u32, u32>): (t': BtfType)
    requires CanRewrite(t, ids)
  {
    WithRefs(t, NewRefs(t, ids))
  }

  lemma RewriteShape(t: BtfType, ids: map<u32, u32>)
    requires CanRewrite(t, ids)
    ensures ByteLen(Rewrite(t, ids)) == ByteLen(t)
  {
    WithRefsShape(t, NewRefs(t, ids));
  }

  function RewriteAll(ts: seq<BtfType>, ids: map<u32, u32>): (ts': seq<BtfType>)
    requires forall t :: t in ts ==> CanRewrite(t, ids)
  {
    seq(|ts|, j requires 0 <= j < |ts| => Rewrite(ts[j], ids))
  }

  ghost predicate Countable(types: seq<BtfType>) {
    |types| + 1 < U32_LIMIT
  }

  ghost function FinalKeys(types: seq<BtfType>, f: BtfType -> bool): set<u32>
    requires Countable(types)
  {
    SurvivingKeys(GraphOf(types), Rejected(types, f))
  }

  /** The ids of the types that survive, in order. */
  ghost function KeptIds(types: seq<BtfType>, f: BtfType -> bool): (ids: seq<u32>)
    requires Countable(types)
    ensures forall j :: 0 <= j < |ids| ==> 1 <= ids[j] <= |types| && ids[j] in FinalKeys(types, f)
  {
    Kept(FinalKeys(types, f), |types|)
  }

  function Pick(types: seq<BtfType>, ids: seq<u32>): (ts: seq<BtfType>)
    requires forall j :: 0 <= j < |ids| ==> 1 <= ids[j] <= |types|
    ensures |ts| == |ids|
  {
    seq(|ids|, j requires 0 <= j < |ids| => types[ids[j] - 1])
  }

  lemma KeptReference(types: seq<BtfType>, f: BtfType -> bool, id: u32, r: u32)
    requires Countable(types) && 1 <= id <= |types| && id in FinalKeys(types, f) && r in Refs(types[id - 1])
    ensures r in FinalKeys(types, f)
  {
    hide Refs, Doomed;
    var g, rejected := GraphOf(types), Rejected(types, f);
    assert RefersTo(g, id, r);
    AllKeysMember(g, r);
    if Doomed(g, rejected, r) {
      DoomSpreads(g, rejected, id, r);
    }
  }

  lemma KeptCanRewrite(types: seq<BtfType>, f: BtfType -> bool)
    requires Countable(types)
    ensures forall t :: t in Pick(types, KeptIds(types, f)) ==> CanRewrite(t, NewIds(FinalKeys(types, f)))
  {
    hide FinalKeys, KeptIds, NewIds, Refs;
    var kept := KeptIds(types, f);
    forall j, r | 0 <= j < |kept| && r in Refs(types[kept[j] - 1]) ensures r in FinalKeys(types, f) {
      KeptReference(types, f, kept[j], r);
    }
  }

  ghost function FilterTypes(types: seq<BtfType>, f: BtfType -> bool): (ts: seq<BtfType>)
    requires Countable(types)
    ensures |ts| == |KeptIds(types, f)|
  {
    KeptCanRewrite(types, f);
    RewriteAll(Pick(types, KeptIds(types, f)), NewIds(FinalKeys(types, f)))
  }

  /** Exactly the types from which no chain of references reaches a rejected type survive, in
      their old order, so that the survivor at position j has the new id j + 1. */
  lemma FilterKeepsSurvivors(types: seq<BtfType>, f: BtfType -> bool)
    requires Countable(types)
    ensures forall id: u32 :: id in KeptIds(types, f) <==>
              1 <= id <= |types| && !Doomed(GraphOf(types), Rejected(types, f), id)
    ensures forall i, j :: 0 <= i < j < |KeptIds(types, f)| ==> KeptIds(types, f)[i] < KeptIds(types, f)[j]
    ensures forall j :: 0 <= j < |KeptIds(types, f)| ==>
              NewId(FinalKeys(types, f), KeptIds(types, f)[j]) == j + 1
  {
    var keys, kept := FinalKeys(types, f), KeptIds(types, f);
    forall id: u32 | 1 <= id <= |types| ensures id in AllKeys(GraphOf(types)) {
      AllKeysMember(GraphOf(types), id);
    }
    forall j | 0 <= j < |kept|
      ensures NewId(keys, kept[j]) == j + 1 && forall i :: 0 <= i < j ==> kept[i] < kept[j]
    {
      KeptConsecutive(keys, |types|, j);
    }
  }

  /** The old record of the survivor at position j. */
  ghost function OldType(types: seq<BtfType>, f: BtfType -> bool, j: nat): (t: BtfType)
    requires Countable(types) && j < |KeptIds(types, f)|
  {
    types[KeptIds(types, f)[j] - 1]
  }

  /** No rejected type survives. */
  lemma FilterAccepts(types: seq<BtfType>, f: BtfType -> bool, j: nat)
    requires Countable(types) && j < |KeptIds(types, f)|
    ensures f(OldType(types, f, j))
  {
    var id := KeptIds(types, f)[j];
    if !f(types[id - 1]) {
      assert RejectedAt(types, f, id);
      RejectedDoomed(GraphOf(types), Rejected(types, f), id);
    }
  }

  /** Where a reference `r` of a kept type must point after renumbering. */
  ghost predicate Tracks(types: seq<BtfType>, kept: seq<u32>, r: u32, r': u32) {
    if r == 0 then r' == 0
    else if r <= |types| then 1 <= r' <= |kept| && kept[r' - 1] == r
    else r' > |kept|
  }

  /** Each reference of `t'` points to what the target of the same reference of `t` became, and
      restoring the old references restores the old record, so nothing else changed. */
  ghost predicate Isomorphic(types: seq<BtfType>, kept: seq<u32>, t: BtfType, t': BtfType) {
    && |Refs(t')| == |Refs(t)|
    && (forall i :: 0 <= i < |Refs(t)| ==> Tracks(types, kept, Refs(t)[i], Refs(t')[i]))
    && WithRefs(t', Refs(t)) == t
    && KindOf(t') == KindOf(t) && ByteLen(t') == ByteLen(t)
  }

  /** Renumbering is an isomorphism of the reference graph onto the survivors: each reference points
      to the survivor its old target became, void stays void, and a dangling id stays dangling. All
      references go through one map, which keeps the order of the ids and so their distinctness. */
  lemma FilterIsomorphism(types: seq<BtfType>, f: BtfType -> bool, j: nat)
    requires Countable(types) && j < |KeptIds(types, f)|
    ensures Isomorphic(types, KeptIds(types, f), OldType(types, f, j), FilterTypes(types, f)[j])
    ensures var keys, rs := FinalKeys(types, f), Refs(OldType(types, f, j));
            && (forall i :: 0 <= i < |rs| ==> rs[i] in keys && Refs(FilterTypes(types, f)[j])[i] == NewId(keys, rs[i]))
            && (forall a, b :: a in keys && b in keys && a < b ==> NewId(keys, a) < NewId(keys, b))
  {
    hide FilterTypes, KeptIds, FinalKeys, NewId, OldType;
    FilterTypesAt(types, f, j);
    var keys := FinalKeys(types, f);
    var t, ids := OldType(types, f, j), NewIds(keys);
    RefsLens(t, NewRefs(t, ids));
    WithRefsShape(t, NewRefs(t, ids));
    forall r: u32 | r in ids ensures Tracks(types, KeptIds(types, f), r, ids[r]) {
      NewIdTracks(types, f, r);
    }
    forall a, b | a in keys && b in keys && a < b ensures NewId(keys, a) < NewId(keys, b) {
      NewIdIncreasing(keys, a, b);
    }
    assert forall i :: 0 <= i < |Refs(t)| ==> Refs(t)[i] in keys;
  }

  lemma FilterTypesAt(types: seq<BtfType>, f: BtfType -> bool, j: nat)
    requires Countable(types) && j < |KeptIds(types, f)|
    ensures CanRewrite(OldType(types, f, j), NewIds(FinalKeys(types, f)))
    ensures FilterTypes(types, f)[j] == Rewrite(OldType(types, f, j), NewIds(FinalKeys(types, f)))
  {
    hide KeptIds, FinalKeys, NewIds, WithRefs, Refs, CanRewrite, Rewrite;
    KeptCanRewrite(types, f);
    var ts := Pick(types, KeptIds(types, f));
    assert ts[j] in ts;
  }

  lemma NewIdTracks(types: seq<BtfType>, f: BtfType -> bool, r: u32)
    requires Countable(types) && r in FinalKeys(types, f)
    ensures Tracks(types, KeptIds(types, f), r, NewIds(FinalKeys(types, f))[r])
  {
    hide FinalKeys;
    var keys := FinalKeys(types, f);
    if 1 <= r <= |types| {
      KeptAt(keys, |types|, r);
    } else {
      NewIdOutside(keys, |types|, r);
    }
  }

  /** Void is never removed. */
  lemma VoidSurvives(types: seq<BtfType>, f: BtfType -> bool)
    requires Countable(types)
    ensures 0 in AllKeys(GraphOf(types)) ==> 0 in FinalKeys(types, f)
  {
    assert forall p :: IsChain(GraphOf(types), p) ==> IsId(GraphOf(types), p[0]);
  }

  // ---------- sizes ----------

  lemma {:induction false} CountBound(types: seq<BtfType>)
    ensures 12 * |types| <= TotalLen(types)
  {
    if types != [] {
      CountBound(types[1..]);
    }
  }

  lemma {:induction false} SameTotal(ts: seq<BtfType>, us: seq<BtfType>)
    requires |ts| == |us| && forall i :: 0 <= i < |ts| ==> ByteLen(ts[i]) == ByteLen(us[i])
    ensures TotalLen(ts) == TotalLen(us)
  {
    if ts != [] {
      SameTotal(ts[1..], us[1..]);
    }
  }

  lemma {:induction false} PickedTotal(types: seq<BtfType>, keys: set<u32>, n: nat)
    requires n <= |types| && Countable(types)
    ensures TotalLen(Pick(types, Kept(keys, n))) <= TotalLen(types[..n])
  {
    if n > 0 {
      PickedTotal(types, keys, n - 1);
      assert types[..n] == types[..n - 1] + [types[n - 1]];
      TotalLenSnoc(types[..n - 1], types[n - 1]);
      PickStep(types, keys, n);
      TotalLenSnoc(Pick(types, Kept(keys, n - 1)), types[n - 1]);
    }
  }

  lemma PickNone(types: seq<BtfType>, keys: set<u32>)
    ensures Pick(types, Kept(keys, 0)) == []
  {
  }

  lemma PickStep(types: seq<BtfType>, keys: set<u32>, n: nat)
    requires 1 <= n <= |types| && Countable(types)
    ensures n in keys ==> Pick(types, Kept(keys, n)) == Pick(types, Kept(keys, n - 1)) + [types[n - 1]]
    ensures n !in keys ==> Pick(types, Kept(keys, n)) == Pick(types, Kept(keys, n - 1))
  {
  }

  lemma FilteredTotal(types: seq<BtfType>, f: BtfType -> bool)
    requires Countable(types)
    ensures TotalLen(FilterTypes(types, f)) == TotalLen(Pick(types, KeptIds(types, f))) <= TotalLen(types)
  {
    hide *;
    PickedAll(types, f);
    var ts, us := FilterTypes(types, f), Pick(types, KeptIds(types, f));
    forall j | 0 <= j < |ts| ensures ByteLen(ts[j]) == ByteLen(us[j]) {
      SameSize(types, f, j);
    }
    SameTotal(ts, us);
  }

  lemma SameSize(types: seq<BtfType>, f: BtfType -> bool, j: nat)
    requires Countable(types) && j < |KeptIds(types, f)|
    ensures ByteLen(FilterTypes(types, f)[j]) == ByteLen(Pick(types, KeptIds(types, f))[j])
  {
    hide FilterTypes, KeptIds, Refs, Tracks, WithRefs, ByteLen, KindOf;
    FilterIsomorphism(types, f, j);
  }

  lemma PickedAll(types: seq<BtfType>, f: BtfType -> bool)
    requires Countable(types)
    ensures TotalLen(Pick(types, KeptIds(types, f))) <= TotalLen(types)
  {
    PickedTotal(types, FinalKeys(types, f), |types|);
    assert types[..|types|] == types;
  }
}
