/** Filtering what was filtered, and fixing what was fixed: when the second time changes nothing. */
module BtfRefilter {
  import opened Bytes
  import opened BtfTypes
  import opened BtfNames
  import opened BtfParse
  import opened BtfGraph
  import opened BtfRenumber
  import opened BtfFilter
  import opened BtfPipeline

  // ---------- a filter that rejects nothing ----------

  lemma NothingDoomed(types: seq<BtfType>, f: BtfType -> bool)
    requires Countable(types) && forall t :: t in types ==> f(t)
    ensures FinalKeys(types, f) == AllKeys(GraphOf(types))
  {
    hide AllKeys, GraphOf;
    assert Rejected(types, f) == {};
  }

  lemma IdsAreKeys(types: seq<BtfType>)
    requires Countable(types)
    ensures forall k: u32 :: 1 <= k <= |types| ==> k in AllKeys(GraphOf(types))
  {
    forall k: u32 | 1 <= k <= |types| ensures k in AllKeys(GraphOf(types)) {
      AllKeysMember(GraphOf(types), k);
    }
  }

  lemma AllKept(types: seq<BtfType>, f: BtfType -> bool)
    requires Countable(types) && forall t :: t in types ==> f(t)
    ensures |KeptIds(types, f)| == |types| && forall j :: 0 <= j < |types| ==> KeptIds(types, f)[j] == j + 1
  {
    hide AllKeys, Kept, FinalKeys, GraphOf;
    NothingDoomed(types, f);
    IdsAreKeys(types);
    KeptLength(FinalKeys(types, f), |types|);
  }

  lemma NothingRejected(types: seq<BtfType>, f: BtfType -> bool)
    requires Countable(types) && forall t :: t in types ==> f(t)
    ensures FinalKeys(types, f) == AllKeys(GraphOf(types))
    ensures |KeptIds(types, f)| == |types| && forall j :: 0 <= j < |types| ==> OldType(types, f, j) == types[j]
    ensures Pick(types, KeptIds(types, f)) == types
  {
    hide AllKeys, KeptIds, FinalKeys, GraphOf;
    NothingDoomed(types, f);
    AllKept(types, f);
  }

  /** Filtering changes nothing exactly when the ids the section mentions are compact. */
  lemma RefilterIdentity(types: seq<BtfType>, f: BtfType -> bool)
    requires Countable(types) && forall t :: t in types ==> f(t)
    ensures |FilterTypes(types, f)| == |types| && TotalLen(FilterTypes(types, f)) == TotalLen(types)
    ensures FilterTypes(types, f) == types <==> Compact(AllKeys(GraphOf(types)))
  {
    hide FilterTypes, FinalKeys, KeptIds, OldType, NewId, AllKeys, Compact, TotalLen;
    var keys := AllKeys(GraphOf(types));
    NothingRejected(types, f);
    FilteredTotal(types, f);
    CompactIdentity(keys);
    if Compact(keys) {
      forall j | 0 <= j < |types| ensures FilterTypes(types, f)[j] == types[j] {
        SameRecord(types, f, j);
      }
    }
    if FilterTypes(types, f) == types {
      forall r: u32 | r in keys ensures NewId(keys, r) == r {
        SameKey(types, f, r);
      }
    }
  }

  lemma SameRecord(types: seq<BtfType>, f: BtfType -> bool, j: nat)
    requires Countable(types) && j < |KeptIds(types, f)|
    requires forall r: u32 :: r in FinalKeys(types, f) ==> NewId(FinalKeys(types, f), r) == r
    ensures FilterTypes(types, f)[j] == OldType(types, f, j)
  {
    hide FilterTypes, FinalKeys, KeptIds, OldType, NewId;
    FilterIsomorphism(types, f, j);
    var t, t' := OldType(types, f, j), FilterTypes(types, f)[j];
    assert Refs(t') == Refs(t);
    RefsLens(t', Refs(t'));
  }

  lemma IsomorphicRefs(types: seq<BtfType>, f: BtfType -> bool, j: nat)
    requires Countable(types) && j < |KeptIds(types, f)|
    ensures var keys, rs, rs' := FinalKeys(types, f), Refs(OldType(types, f, j)), Refs(FilterTypes(types, f)[j]);
            |rs'| == |rs| && forall i :: 0 <= i < |rs| ==> rs[i] in keys && rs'[i] == NewId(keys, rs[i])
  {
    hide FilterTypes, FinalKeys, KeptIds, OldType, NewId, Refs;
    FilterIsomorphism(types, f, j);
  }

  lemma SameRef(types: seq<BtfType>, f: BtfType -> bool, j: nat, r: u32)
    requires Countable(types) && j < |KeptIds(types, f)| && r in Refs(OldType(types, f, j))
    requires FilterTypes(types, f)[j] == OldType(types, f, j)
    ensures NewId(FinalKeys(types, f), r) == r
  {
    hide FilterTypes, FinalKeys, KeptIds, OldType, NewId, Refs;
    IsomorphicRefs(types, f, j);
  }

  lemma SameKey(types: seq<BtfType>, f: BtfType -> bool, r: u32)
    requires Countable(types) && (forall t :: t in types ==> f(t)) && r in AllKeys(GraphOf(types))
    requires FilterTypes(types, f) == types
    ensures NewId(AllKeys(GraphOf(types)), r) == r
  {
    hide FilterTypes, FinalKeys, KeptIds, OldType, NewId, AllKeys, Refs, Pick;
    NothingRejected(types, f);
    AllKeysMember(GraphOf(types), r);
    if 1 <= r <= |types| {
      IdsAreKeys(types);
      RankIdentity(AllKeys(GraphOf(types)), r);
    } else {
      var x :| RefersTo(GraphOf(types), x, r);
      SameRef(types, f, x - 1, r);
    }
  }

  // ---------- the ids after filtering ----------

  /** A kept type refers to `r`. */
  ghost predicate KeptRef(types: seq<BtfType>, f: BtfType -> bool, r: u32)
    requires Countable(types)
  {
    exists j :: 0 <= j < |KeptIds(types, f)| && r in Refs(OldType(types, f, j))
  }

  /** No dangling id that only removed types mention is smaller than one a kept type mentions. Every
      section whose references stay inside it satisfies this. */
  ghost predicate DanglingClosed(types: seq<BtfType>, f: BtfType -> bool)
    requires Countable(types)
  {
    forall d: u32, r: u32 ::
      |types| < d < r && d in AllKeys(GraphOf(types)) && KeptRef(types, f, r) ==> KeptRef(types, f, d)
  }

  lemma DanglingSurvives(types: seq<BtfType>, f: BtfType -> bool, d: u32)
    requires Countable(types) && d > |types|
    ensures d in FinalKeys(types, f) <==> d in AllKeys(GraphOf(types))
  {
    hide AllKeys, GraphOf;
    assert forall p :: IsChain(GraphOf(types), p) ==> IsId(GraphOf(types), p[0]);
  }

  lemma FilteredCountable(types: seq<BtfType>, f: BtfType -> bool)
    requires Countable(types)
    ensures Countable(FilterTypes(types, f))
  {
    KeptLength(FinalKeys(types, f), |types|);
  }

  // The new id of a dangling id, and only of such, lies beyond the kept types.
  lemma DanglingBeyond(types: seq<BtfType>, f: BtfType -> bool, r: u32)
    requires Countable(types) && r in FinalKeys(types, f)
    ensures r > |types| <==> NewId(FinalKeys(types, f), r) > |KeptIds(types, f)|
  {
    hide FinalKeys, KeptIds, NewId;
    NewIdTracks(types, f, r);
  }

  lemma KeptRefKey(types: seq<BtfType>, f: BtfType -> bool, r: u32) returns (k: u32)
    requires Countable(types) && Countable(FilterTypes(types, f)) && KeptRef(types, f, r)
    ensures r in FinalKeys(types, f) && k == NewId(FinalKeys(types, f), r)
    ensures k in AllKeys(GraphOf(FilterTypes(types, f)))
  {
    hide FilterTypes, FinalKeys, KeptIds, OldType, NewId, AllKeys, Refs, Isomorphic;
    var ts := FilterTypes(types, f);
    var j :| 0 <= j < |KeptIds(types, f)| && r in Refs(OldType(types, f, j));
    var i :| 0 <= i < |Refs(OldType(types, f, j))| && Refs(OldType(types, f, j))[i] == r;
    IsomorphicRefs(types, f, j);
    k := Refs(ts[j])[i];
    assert RefersTo(GraphOf(ts), j + 1, k);
    AllKeysMember(GraphOf(ts), k);
  }

  // An id beyond the kept types that the filtered section mentions comes from a reference.
  lemma KeyFromRef(types: seq<BtfType>, f: BtfType -> bool, k: u32) returns (r: u32)
    requires Countable(types) && Countable(FilterTypes(types, f))
    requires k in AllKeys(GraphOf(FilterTypes(types, f))) && k > |KeptIds(types, f)|
    ensures r in FinalKeys(types, f) && KeptRef(types, f, r) && NewId(FinalKeys(types, f), r) == k
  {
    hide FilterTypes, FinalKeys, KeptIds, OldType, NewId, AllKeys, Refs, Isomorphic;
    var ts := FilterTypes(types, f);
    AllKeysMember(GraphOf(ts), k);
    var x :| RefersTo(GraphOf(ts), x, k);
    var i :| 0 <= i < |Refs(ts[x - 1])| && Refs(ts[x - 1])[i] == k;
    IsomorphicRefs(types, f, x - 1);
    r := Refs(OldType(types, f, x - 1))[i];
  }

  /** The filtered section mentions compact ids exactly when the dangling ones were closed. */
  lemma FilterCompact(types: seq<BtfType>, f: BtfType -> bool)
    requires Countable(types) && Countable(FilterTypes(types, f))
    ensures Compact(AllKeys(GraphOf(FilterTypes(types, f)))) <==> DanglingClosed(types, f)
  {
    hide FilterTypes, FinalKeys, KeptIds, NewId, AllKeys, KeptRef;
    if DanglingClosed(types, f) {
      forall r: u32, k: u32 | r in AllKeys(GraphOf(FilterTypes(types, f))) && 1 <= k < r
        ensures k in AllKeys(GraphOf(FilterTypes(types, f)))
      {
        ClosedCompact(types, f, r, k);
      }
    }
    if Compact(AllKeys(GraphOf(FilterTypes(types, f)))) {
      forall d: u32, r: u32 | |types| < d < r && d in AllKeys(GraphOf(types)) && KeptRef(types, f, r)
        ensures KeptRef(types, f, d)
      {
        CompactClosed(types, f, d, r);
      }
    }
  }

  lemma ClosedCompact(types: seq<BtfType>, f: BtfType -> bool, r: u32, k: u32)
    requires Countable(types) && Countable(FilterTypes(types, f)) && DanglingClosed(types, f)
    requires r in AllKeys(GraphOf(FilterTypes(types, f))) && 1 <= k < r
    ensures k in AllKeys(GraphOf(FilterTypes(types, f)))
  {
    hide FilterTypes, FinalKeys, KeptIds, NewId, AllKeys, KeptRef, GraphOf;
    if k <= |KeptIds(types, f)| {
      IdsAreKeys(FilterTypes(types, f));
    } else {
      var keys := FinalKeys(types, f);
      var r0 := KeyFromRef(types, f, r);
      var d := RankOnto(keys, r0, k);
      DanglingBeyond(types, f, d);
      DanglingSurvives(types, f, d);
      var k' := KeptRefKey(types, f, d);
    }
  }

  lemma CompactClosed(types: seq<BtfType>, f: BtfType -> bool, d: u32, r: u32)
    requires Countable(types) && Countable(FilterTypes(types, f))
    requires Compact(AllKeys(GraphOf(FilterTypes(types, f))))
    requires |types| < d < r && d in AllKeys(GraphOf(types)) && KeptRef(types, f, r)
    ensures KeptRef(types, f, d)
  {
    hide FilterTypes, FinalKeys, KeptIds, NewId, AllKeys, KeptRef, GraphOf;
    var keys := FinalKeys(types, f);
    var r' := KeptRefKey(types, f, r);
    DanglingSurvives(types, f, d);
    DanglingBeyond(types, f, d);
    NewIdIncreasing(keys, d, r);
    var d' := KeyFromRef(types, f, NewId(keys, d));
    if d' < d {
      NewIdIncreasing(keys, d', d);
    } else if d < d' {
      NewIdIncreasing(keys, d, d');
    }
  }

  /** Filtering twice is filtering once, for exactly the inputs whose dangling ids are closed. */
  lemma FilterIdempotent(types: seq<BtfType>, f: BtfType -> bool)
    requires Countable(types) && forall t :: t in FilterTypes(types, f) ==> f(t)
    ensures Countable(FilterTypes(types, f))
    ensures FilterTypes(FilterTypes(types, f), f) == FilterTypes(types, f) <==> DanglingClosed(types, f)
  {
    hide FilterTypes, AllKeys, Compact, DanglingClosed;
    FilteredCountable(types, f);
    RefilterIdentity(FilterTypes(types, f), f);
    FilterCompact(types, f);
  }

  lemma NoDanglingClosed(types: seq<BtfType>, f: BtfType -> bool)
    requires Countable(types) && forall t, r :: t in types && r in Refs(t) ==> r <= |types|
    ensures DanglingClosed(types, f)
  {
    hide Refs;
    forall r: u32 | r > |types| ensures !KeptRef(types, f, r) {
    }
  }

  // ---------- the whole fix, twice ----------

  lemma DumpInjective(h: Header, ts: seq<BtfType>, us: seq<BtfType>, s: seq<byte>, s': seq<byte>)
    requires h.hdrLen == HEADER_SIZE
    requires BtfParse.Dump(Section(h, ts, s)).Ok? && BtfParse.Dump(Section(h, us, s')).Ok?
    requires (forall t :: t in ts ==> Consistent(t)) && forall t :: t in us ==> Consistent(t)
    ensures BtfParse.Dump(Section(h, ts, s)) == BtfParse.Dump(Section(h, us, s')) <==> ts == us && s == s'
  {
    hide BtfParse.Dump, TypeBytes, StringBytes, EncodeAll, Consistent, HeaderOf;
    DumpPieces(Section(h, ts, s));
    DumpPieces(Section(h, us, s'));
    if BtfParse.Dump(Section(h, ts, s)) == BtfParse.Dump(Section(h, us, s')) {
      EncodeAllInjective(ts, us);
    }
  }

  // A second filter leaves the header and the strings as they are.
  lemma RefilterSection(sec: Section)
    requires Parsed(sec) && forall t :: t in sec.types ==> LegacyKind(t)
    ensures Countable(sec.types)
    ensures FilterSection(sec, LegacyKind) == Ok(sec.(types := FilterTypes(sec.types, LegacyKind)))
  {
    hide FilterTypes, Named, Consistent, TotalLen, AllKeys, Compact, LegacyKind;
    ParsedCountable(sec);
    RefilterIdentity(sec.types, LegacyKind);
    assert sec.strs + Zeros(0) == sec.strs;
  }

  lemma RefixBytes(raw: seq<byte>)
    requires Fixable(raw) && BtfParse.Dump(Filtered(raw)).Ok?
    ensures var sec, out := Filtered(raw), BtfParse.Dump(Filtered(raw)).value;
            && Countable(sec.types) && Parsed(sec)
            && var sec' := Section(sec.hdr, FilterTypes(sec.types, LegacyKind), FixNames(sec.types, sec.strs));
            Parsed(sec') && FixBytes(out) == BtfParse.Dump(sec')
  {
    hide ParseRaw, Filtered, FilterSection, BtfParse.Dump, FilterTypes, FixNames, LegacyKind, Named, Consistent,
      TotalLen;
    var sec := Filtered(raw);
    var out := BtfParse.Dump(sec).value;
    ReparseDump(sec);
    ParseRawParsed(out);
    FilteredLegacyOnly(raw);
    RefilterSection(ParseRaw(out).value);
    FilterKeepsParsed(ParseRaw(out).value, LegacyKind);
  }

  /** The fixed section can be fixed again, and that changes nothing if and only if the names that
      are left obey their rules and the dangling ids of the original section were closed. */
  lemma FixBytesIdempotent(raw: seq<byte>)
    requires Fixable(raw)
    ensures Countable(ParseRaw(raw).value.types)
    ensures FixBytes(raw).Ok? && FixBytes(FixBytes(raw).value).Ok?
    ensures FixBytes(FixBytes(raw).value) == FixBytes(raw) <==>
            (forall t :: t in Filtered(raw).types ==> NameObeysRule(t, Filtered(raw).strs)) &&
            DanglingClosed(ParseRaw(raw).value.types, LegacyKind)
  {
    hide ParseRaw, Filtered, FixBytes, FilterSection, BtfParse.Dump, FilterTypes, FixNames, LegacyKind, Named,
      Consistent, TotalLen, NameObeysRule, DanglingClosed, Degrades;
    var sec := Filtered(raw);
    FixBytesResult(raw);
    DumpExact(sec);
    RefixBytes(raw);
    FilteredTypes(raw);
    FilteredLegacyOnly(raw);
    FilterIdempotent(ParseRaw(raw).value.types, LegacyKind);
    FixNamesFacts(sec.types, sec.strs);
    var types, strs := FilterTypes(sec.types, LegacyKind), FixNames(sec.types, sec.strs);
    DumpExact(Section(sec.hdr, types, strs));
    DumpInjective(sec.hdr, types, sec.types, strs, sec.strs);
  }

  /** Fixing a fixed ELF file changes nothing, exactly when the fixes of its string leave each kept name
      valid and the dangling ids were closed. When no multi-byte name shares a string with another
      name, the own fix of each one decides; for ASCII names and references inside the section,
      nothing ever changes. */
  lemma LegacyFixIdempotent(elf: seq<byte>, start: nat, size: nat)
    requires start + size <= |elf| && Fixable(elf[start..start + size])
    ensures LegacyFix(elf, Some((start, size))).Ok?
    ensures var raw, out := elf[start..start + size], LegacyFix(elf, Some((start, size))).value;
            var types := ParseRaw(raw).value.types;
            var again := LegacyFix(out, Some((start, size)));
            && again.Ok? && Countable(types)
            && (again == Ok(out) <==> KeptSanitised(raw) && DanglingClosed(types, LegacyKind))
            && (KeptUndisturbed(raw) ==>
                (again == Ok(out) <==> KeptFixSuffices(raw) && DanglingClosed(types, LegacyKind)))
            && (AsciiNames(raw) ==> (again == Ok(out) <==> DanglingClosed(types, LegacyKind)))
            && (AsciiNames(raw) && (forall t, r :: t in types && r in Refs(t) ==> r <= |types|) ==> again == Ok(out))
  {
    hide ParseRaw, Filtered, FixBytes, BtfParse.Dump, Parsed, KeptSanitised, KeptUndisturbed, KeptFixSuffices,
      AsciiNames, NameObeysRule, DanglingClosed, Refs, LegacyFix;
    var raw := elf[start..start + size];
    FixBytesIdempotent(raw);
    FilteredNamesObey(raw);
    FixTwice(elf, start, size);
    var types := ParseRaw(raw).value.types;
    if forall t, r :: t in types && r in Refs(t) ==> r <= |types| {
      NoDanglingClosed(types, LegacyKind);
    }
  }

  lemma FixLength(raw: seq<byte>)
    requires Fixable(raw)
    ensures FixBytes(raw).Ok? && |FixBytes(raw).value| == |raw| && Fixable(FixBytes(raw).value)
  {
    hide ParseRaw, Filtered, FixBytes, BtfParse.Dump, Parsed, KeptSanitised;
    FixBytesResult(raw);
    SectionReparses(raw);
  }

  lemma FixTwice(elf: seq<byte>, start: nat, size: nat)
    requires start + size <= |elf| && Fixable(elf[start..start + size])
    ensures LegacyFix(elf, Some((start, size))).Ok? && FixBytes(elf[start..start + size]).Ok?
    ensures var once, out := FixBytes(elf[start..start + size]), LegacyFix(elf, Some((start, size))).value;
            var again := LegacyFix(out, Some((start, size)));
            again.Ok? && (again == Ok(out) <==> FixBytes(once.value) == once)
  {
    hide FixBytes, Fixable;
    var once := FixBytes(elf[start..start + size]);
    FixLength(elf[start..start + size]);
    FixLength(once.value);
    var out := LegacyFix(elf, Some((start, size))).value;
    assert out[start..start + size] == once.value;
    assert out[..start] == elf[..start] && out[start + size..] == elf[start + size..];
    var again := LegacyFix(out, Some((start, size))).value;
    assert again[start..start + size] == FixBytes(once.value).value;
  }
}
