/** The mutable BTF object with its in-place filter, and the whole fix of an ELF's .BTF section. */
module BtfPipeline {
  import opened Bytes
  import opened BtfTypes
  import opened BtfNames
  import opened BtfParse
  import opened BtfGraph
  import opened BtfRenumber
  import opened BtfFilter
  import opened BtfReader

  // ---------- filtering a section ----------

  /** The header and strings after `decreased` bytes of types have gone: the strings move down and
      grow by as many zero bytes. */
  function Rebalance(h: Header, strs: seq<byte>, types: seq<BtfType>): (r: Result<Section>)
    requires TotalLen(types) <= h.typeLen && h.strOff + h.strLen < U32_LIMIT
  {
    var decreased := h.typeLen - TotalLen(types);
    if h.strOff < decreased then Err(Fault)
    else Ok(Section(h.(typeLen := TotalLen(types), strOff := h.strOff - decreased, strLen := h.strLen + decreased),
                    types, strs + Zeros(decreased)))
  }

  lemma ParsedCountable(sec: Section)
    requires Parsed(sec)
    ensures Countable(sec.types)
  {
    CountBound(sec.types);
  }

  ghost function FilterSection(sec: Section, f: BtfType -> bool): (r: Result<Section>)
    requires Parsed(sec)
  {
    ParsedCountable(sec);
    FilteredTotal(sec.types, f);
    Rebalance(sec.hdr, sec.strs, FilterTypes(sec.types, f))
  }

  /** Conservation: the end of the strings and the gap before them stay where they were, only three
      fields of the header change, the strings grow by zeros, and every offset reads the same name. */
  ghost predicate Conserves(sec: Section, sec': Section) {
    var h, h' := sec.hdr, sec'.hdr;
    && h'.strOff + h'.strLen == h.strOff + h.strLen
    && h'.strOff - h'.typeOff - h'.typeLen == h.strOff - h.typeOff - h.typeLen
    && h' == h.(typeLen := h'.typeLen, strOff := h'.strOff, strLen := h'.strLen)
    && h'.strLen >= h.strLen && sec'.strs == sec.strs + Zeros(h'.strLen - h.strLen)
    && forall off: nat :: Terminated(sec.strs, off) ==>
         Terminated(sec'.strs, off) && CStr(sec'.strs, off) == CStr(sec.strs, off)
  }

  /** More bytes of types go than the strings could move down. */
  ghost predicate Underflows(sec: Section, f: BtfType -> bool)
    requires Parsed(sec)
  {
    ParsedCountable(sec);
    sec.hdr.strOff < sec.hdr.typeLen - TotalLen(FilterTypes(sec.types, f))
  }

  /** Filtering conserves the layout, or it faults, exactly when the offset of the strings
      underflows; that happens only when the strings overlap the types. */
  lemma FilterConserves(sec: Section, f: BtfType -> bool)
    requires Parsed(sec)
    ensures match FilterSection(sec, f)
            case Ok(sec') => !Underflows(sec, f) && Conserves(sec, sec')
            case Err(e) => e == Fault && Underflows(sec, f) && sec.hdr.typeOff + sec.hdr.typeLen > sec.hdr.strOff
  {
    hide FilterTypes, TotalLen, Terminated, CStr, Named, Consistent;
    ParsedCountable(sec);
    FilteredTotal(sec.types, f);
    forall off: nat, n: nat | Terminated(sec.strs, off)
      ensures Terminated(sec.strs + Zeros(n), off) && CStr(sec.strs + Zeros(n), off) == CStr(sec.strs, off)
    {
      PaddingKeepsNames(sec.strs, n, off);
    }
  }

  lemma PaddedMember(s: seq<byte>, n: nat, off: nat)
    requires off < |s| ==> Terminated(s, off)
    ensures off < |s + Zeros(n)| ==> Terminated(s + Zeros(n), off)
  {
    if off < |s| {
      PaddingKeepsNames(s, n, off);
    } else if off < |s + Zeros(n)| {
      assert (s + Zeros(n))[off] == 0;
    }
  }

  lemma RewrittenMembers(t: BtfType, t': BtfType, s: seq<byte>, n: nat)
    requires MemberNamesReadable(t, s) && |Refs(t')| == |Refs(t)| && WithRefs(t', Refs(t)) == t
    ensures MemberNamesReadable(t', s + Zeros(n))
  {
    if t.Structure? || t.Union? {
      forall m | m in t'.members && m.nameOff < |s + Zeros(n)| ensures Terminated(s + Zeros(n), m.nameOff) {
        var i :| 0 <= i < |t'.members| && t'.members[i] == m;
        assert t.members[i].nameOff == m.nameOff && t.members[i] in t.members;
        PaddedMember(s, n, m.nameOff);
      }
    }
  }

  lemma RewrittenNaming(t: BtfType, t': BtfType)
    requires |Refs(t')| == |Refs(t)| && WithRefs(t', Refs(t)) == t
    ensures NamingOf(t') == NamingOf(t) && t'.c.nameOff == t.c.nameOff
  {
  }

  lemma RewrittenNamed(t: BtfType, t': BtfType, s: seq<byte>, n: nat)
    requires Named(t, s) && |Refs(t')| == |Refs(t)| && WithRefs(t', Refs(t)) == t
    ensures Named(t', s + Zeros(n))
    ensures NameObeysRule(t, s) <==> NameObeysRule(t', s + Zeros(n))
  {
    hide Refs, WithRefs, NamingOf, MemberNamesReadable, Terminated, CStr, ValidName;
    RewrittenNaming(t, t');
    PaddingKeepsNames(s, n, t.c.nameOff);
    RewrittenMembers(t, t', s, n);
  }

  /** Filtering keeps what parsing established, so the result can be printed and parsed again. */
  lemma FilterKeepsParsed(sec: Section, f: BtfType -> bool)
    requires Parsed(sec) && FilterSection(sec, f).Ok?
    ensures Parsed(FilterSection(sec, f).value) && Countable(sec.types)
    ensures var sec' := FilterSection(sec, f).value;
            && |sec'.types| == |KeptIds(sec.types, f)|
            && forall j :: 0 <= j < |sec'.types| ==>
                 (NameObeysRule(sec'.types[j], sec'.strs) <==> NameObeysRule(OldType(sec.types, f, j), sec.strs))
  {
    hide FilterTypes, KeptIds, OldType, Consistent, Named, NameObeysRule, TotalLen;
    ParsedCountable(sec);
    FilteredTotal(sec.types, f);
    var sec' := FilterSection(sec, f).value;
    var n := sec.hdr.typeLen - TotalLen(sec'.types);
    assert sec'.types == FilterTypes(sec.types, f) && sec'.strs == sec.strs + Zeros(n);
    forall j | 0 <= j < |sec'.types|
      ensures Consistent(sec'.types[j]) && Named(sec'.types[j], sec'.strs)
      ensures NameObeysRule(sec'.types[j], sec'.strs) <==> NameObeysRule(OldType(sec.types, f, j), sec.strs)
    {
      FilteredTypeOk(sec.types, sec.strs, f, j, n);
    }
  }

  lemma FilteredTypeOk(types: seq<BtfType>, strs: seq<byte>, f: BtfType -> bool, j: nat, n: nat)
    requires Countable(types) && j < |KeptIds(types, f)|
    requires forall t :: t in types ==> Consistent(t) && Named(t, strs)
    ensures var t' := FilterTypes(types, f)[j];
            && Consistent(t') && Named(t', strs + Zeros(n))
            && (NameObeysRule(t', strs + Zeros(n)) <==> NameObeysRule(OldType(types, f, j), strs))
  {
    FilterIsomorphism(types, f, j);
    var t, t' := types[KeptIds(types, f)[j] - 1], FilterTypes(types, f)[j];
    assert t in types;
    RewrittenNamed(t, t', strs, n);
    FilterConsistent(t, t');
  }

  lemma FilterConsistent(t: BtfType, t': BtfType)
    requires Consistent(t) && |Refs(t')| == |Refs(t)| && WithRefs(t', Refs(t)) == t
    ensures Consistent(t')
  {
    RefsLens(t', Refs(t));
    WithRefsShape(t, Refs(t'));
  }

  // ---------- the filter as it runs ----------

  /** The filter_map over the types: the survivors with their new ids. */
  method SelectKept(types: seq<(int, BtfType)>, ids: map<u32, u32>, ghost ts: seq<BtfType>, ghost keys: set<u32>)
    returns (out: seq<(int, BtfType)>)
    requires Countable(ts) && types == Number(ts) && ids == NewIds(keys)
    ensures out == Number(Pick(ts, Kept(keys, |ts|)))
  {
    hide Pick, Kept;
    out := [];
    assert Pick(ts, Kept(keys, 0)) == [] by { PickNone(ts, keys); }
    for i := 0 to |types|
      invariant out == Number(Pick(ts, Kept(keys, i)))
    {
      var id := types[i].0;
      PickStep(ts, keys, i + 1);
      if id in ids {
        KeptCount(keys, i);
        NumberSnoc(Pick(ts, Kept(keys, i)), ts[i]);
        out := out + [(ids[id], types[i].1)];
      }
    }
  }

  /** The loop that rewrites every reference and adds up the new size of the type section. It fails
      exactly when some reference has no new id. */
  method RenumberAll(types: seq<(int, BtfType)>, ids: map<u32, u32>, ghost ts: seq<BtfType>)
    returns (r: Result<(seq<(int, BtfType)>, nat)>)
    requires types == Number(ts)
    ensures if forall t :: t in ts ==> CanRewrite(t, ids)
            then r == Ok((Number(RewriteAll(ts, ids)), TotalLen(ts)))
            else r == Err(Inconsistent)
  {
    hide Rewrite, CanRewrite, ByteLen;
    var out := [];
    var typeLen := 0;
    for j := 0 to |types|
      invariant forall t :: t in ts[..j] ==> CanRewrite(t, ids)
      invariant out == Number(RewriteAll(ts[..j], ids)) && typeLen == TotalLen(ts[..j])
    {
      var (id, t) := types[j];
      if !CanRewrite(t, ids) {
        assert ts[j] in ts;
        return Err(Inconsistent);
      }
      RewriteShape(t, ids);
      out := out + [(id, Rewrite(t, ids))];
      typeLen := typeLen + ByteLen(Rewrite(t, ids));
      assert ts[..j + 1] == ts[..j] + [ts[j]];
      TotalLenSnoc(ts[..j], ts[j]);
    }
    assert ts[..|ts|] == ts;
    return Ok((out, typeLen));
  }

  /** All of `filter` up to the header: never inconsistent, whatever the graph. */
  method FilterRecords(types: seq<(int, BtfType)>, f: BtfType -> bool, ghost ts: seq<BtfType>)
    returns (r: Result<(seq<(int, BtfType)>, nat)>)
    requires Countable(ts) && types == Number(ts)
    ensures r == Ok((Number(FilterTypes(ts, f)), TotalLen(FilterTypes(ts, f))))
  {
    var records := seq(|types|, i requires 0 <= i < |types| => types[i].1);
    assert records == ts;
    var all := BuildLinks(GraphOf(records));
    var links := RemoveRejected(GraphOf(records), Rejected(records, f), all);
    var ids := AssignNewIds(links.Keys);
    var kept := SelectKept(types, ids, ts, links.Keys);
    KeptCanRewrite(ts, f);
    FilteredTotal(ts, f);
    r := RenumberAll(kept, ids, Pick(ts, KeptIds(ts, f)));
  }

  class BTF {
    var types: seq<(int, BtfType)>
    var hdr: Header
    var strs: seq<byte>

    function Records(): (ts: seq<BtfType>)
      reads this
    {
      seq(|types|, i requires 0 <= i < |types| reads this => types[i].1)
    }

    function View(): (sec: Section)
      reads this
    {
      Section(hdr, Records(), strs)
    }

    /** The type at position i has id i + 1, and the section is one that parsing accepts. */
    ghost predicate Valid()
      reads this
    {
      types == Number(Records()) && Parsed(View())
    }

    constructor (hdr: Header, types: seq<(int, BtfType)>, strs: seq<byte>)
      ensures this.hdr == hdr && this.types == types && this.strs == strs
    {
      this.hdr, this.types, this.strs := hdr, types, strs;
    }

    method Dump() returns (r: Result<seq<byte>>)
      requires Valid()
      ensures r == BtfParse.Dump(View())
    {
      r := WriteSection(hdr, types, strs, Records());
    }

    method Filter(f: BtfType -> bool) returns (r: Result<()>)
      requires Valid()
      modifies this
      ensures match FilterSection(old(View()), f)
              case Err(e) => r == Err(e)
              case Ok(sec) => r == Ok(()) && View() == sec && Valid()
    {
      hide FilterTypes, KeptIds, TotalLen;
      ghost var before := View();
      ParsedCountable(before);
      FilteredTotal(before.types, f);
      var filtered := FilterRecords(types, f, Records());
      var (newTypes, typeLen) := filtered.value;
      var decreased := hdr.typeLen - typeLen;
      if hdr.strOff < decreased {
        return Err(Fault);
      }
      hdr := hdr.(typeLen := typeLen, strOff := hdr.strOff - decreased, strLen := hdr.strLen + decreased);
      strs := PushZeros(strs, decreased);
      types := newTypes;
      assert Records() == FilterTypes(before.types, f);
      FilterKeepsParsed(before, f);
      return Ok(());
    }
  }

  /** BTF::parse_raw into a fresh object. */
  method ParseSection(bytes: seq<byte>) returns (r: Result<BTF>)
    ensures match ParseRaw(bytes)
            case Err(e) => r == Err(e)
            case Ok(sec) => r.Ok? && fresh(r.value) && r.value.View() == sec && r.value.Valid()
  {
    if |bytes| < HEADER_SIZE { return Err(TooSmall); }
    var h := HeaderOf(bytes);
    var check := CheckHeader(h, |bytes|);
    if check.Err? { return Err(check.error); }
    var strs := StringBytes(h, bytes);
    var table := new byte[|strs|](i requires 0 <= i < |strs| => strs[i]);
    assert table[..] == strs;
    var types := ReadTypes(TypeBytes(h, bytes), table);
    if types.Err? { return Err(types.error); }
    var btf := new BTF(h, types.value, table[..]);
    ParseRawParsed(bytes);
    assert btf.Records() == ParseRaw(bytes).value.types;
    return Ok(btf);
  }

  // ---------- the whole fix ----------

  /** The kinds the `tc` command of legacy BPF understands. */
  predicate LegacyKind(t: BtfType) {
    !(t.Variable? || t.DataSection? || t.FloatingPoint?)
  }

  /** Parse, filter and dump, on the bytes of the section. */
  ghost function FixBytes(raw: seq<byte>): (r: Result<seq<byte>>) {
    var sec :- ParseRaw(raw);
    ParseRawParsed(raw);
    var sec' :- FilterSection(sec, LegacyKind);
    BtfParse.Dump(sec')
  }

  /** tc_legacy_fix_btf_section, given where the ELF file keeps its .BTF section. */
  ghost function LegacyFix(elf: seq<byte>, section: Option<(nat, nat)>): (r: Result<seq<byte>>) {
    if section.None? then Err(SectionNotFound) else
    var (start, size) := section.value;
    var end := start + size;
    if end > |elf| then Err(Fault) else
    var out :- FixBytes(elf[start..end]);
    if end < start + |out| then Err(Bloated)
    else if end > start + |out| then Err(Shrunk)
    else Ok(elf[..start] + out + elf[end..])
  }

  method TcLegacyFixBtfSection(elf: seq<byte>, section: Option<(nat, nat)>) returns (r: Result<seq<byte>>)
    ensures r == LegacyFix(elf, section)
  {
    hide ParseRaw, Parsed, FilterSection, BtfParse.Dump;
    if section.None? { return Err(SectionNotFound); }
    var (start, size) := section.value;
    var end := start + size;
    if end > |elf| { return Err(Fault); }
    var parsed := ParseSection(elf[start..end]);
    if parsed.Err? { return Err(parsed.error); }
    var btf := parsed.value;
    var filtered := btf.Filter(LegacyKind);
    if filtered.Err? { return Err(filtered.error); }
    var out := btf.Dump();
    if out.Err? { return Err(out.error); }
    var fixed := elf[..start] + out.value;
    if end < |fixed| { return Err(Bloated); }
    if end > |fixed| { return Err(Shrunk); }
    return Ok(fixed + elf[end..]);
  }

  /** For every ELF whose .BTF section parses, the fix succeeds if and only if the section has the
      layout `dump` can print; otherwise the header, and for overlapping strings the size of the
      types removed, decide which error it is. The two length-mismatch errors of `dump` and the
      inconsistency error of `filter` never occur. */
  lemma LegacyFixExact(elf: seq<byte>, start: nat, size: nat)
    requires start + size <= |elf| && ParseRaw(elf[start..start + size]).Ok?
    ensures Parsed(ParseRaw(elf[start..start + size]).value)
    ensures var h := HeaderOf(elf[start..start + size]);
            var r := LegacyFix(elf, Some((start, size)));
            && (r.Ok? <==> Printable(h))
            && (h.typeOff + h.typeLen > h.strOff ==>
                r == Err(if Underflows(ParseRaw(elf[start..start + size]).value, LegacyKind) then Fault
                         else BadStringOffset))
            && (h.typeOff + h.typeLen <= h.strOff && h.hdrLen < HEADER_SIZE ==> r == Err(Bloated))
            && (h.typeOff + h.typeLen <= h.strOff && h.hdrLen > HEADER_SIZE ==> r == Err(Shrunk))
  {
    hide ParseRaw, Parsed, FilterSection, Underflows, BtfParse.Dump;
    var raw := elf[start..start + size];
    ParseRawParsed(raw);
    var sec := ParseRaw(raw).value;
    FilterConserves(sec, LegacyKind);
    if FilterSection(sec, LegacyKind).Ok? {
      FilterKeepsParsed(sec, LegacyKind);
      DumpExact(FilterSection(sec, LegacyKind).value);
    }
  }

  /** Everything that can go wrong before the filter, in order. */
  lemma LegacyFixFailsEarly(elf: seq<byte>, start: nat, size: nat)
    ensures LegacyFix(elf, None) == Err(SectionNotFound)
    ensures start + size > |elf| ==> LegacyFix(elf, Some((start, size))) == Err(Fault)
    ensures start + size <= |elf| && ParseRaw(elf[start..start + size]).Err? ==>
              LegacyFix(elf, Some((start, size))) == Err(ParseRaw(elf[start..start + size]).error)
  {
    hide ParseRaw;
  }

  /** A section that parses and that `dump` can print. */
  ghost predicate Fixable(raw: seq<byte>) {
    ParseRaw(raw).Ok? && Printable(ParseRaw(raw).value.hdr)
  }

  /** What the section of a fixable input is filtered to. */
  ghost function Filtered(raw: seq<byte>): (sec: Section)
    requires Fixable(raw)
    ensures Parsed(sec) && Printable(sec.hdr)
    ensures |raw| == HEADER_SIZE + sec.hdr.strOff + sec.hdr.strLen
  {
    ParseRawParsed(raw);
    var parsed := ParseRaw(raw).value;
    FilterConserves(parsed, LegacyKind);
    FilterKeepsParsed(parsed, LegacyKind);
    FilterSection(parsed, LegacyKind).value
  }

  /** Kinds 1 to 13 are the ones that legacy BPF understands: everything but variables (14), data
      sections (15) and floating point numbers (16). */
  lemma LegacyKindExactly(t: BtfType)
    ensures LegacyKind(t) <==> KindOf(t) <= 13
  {
  }

  /** Only kinds that legacy BPF understands are left in the fixed section. */
  lemma FilteredLegacyOnly(raw: seq<byte>)
    requires Fixable(raw)
    ensures forall t :: t in Filtered(raw).types ==> LegacyKind(t) && 1 <= KindOf(t) <= 13
  {
    hide ParseRaw, Parsed;
    var types := ParseRaw(raw).value.types;
    ParseRawParsed(raw);
    ParsedCountable(ParseRaw(raw).value);
    FilterConserves(ParseRaw(raw).value, LegacyKind);
    var ts := FilterTypes(types, LegacyKind);
    FilteredTypes(raw);
    forall j | 0 <= j < |ts| ensures LegacyKind(ts[j]) && 1 <= KindOf(ts[j]) <= 13 {
      KeptLegacy(types, j);
      LegacyKindExactly(ts[j]);
    }
  }

  lemma FilteredTypes(raw: seq<byte>)
    requires Fixable(raw)
    ensures Countable(ParseRaw(raw).value.types)
    ensures Filtered(raw).types == FilterTypes(ParseRaw(raw).value.types, LegacyKind)
  {
    hide ParseRaw, Parsed, FilterTypes;
    ParseRawParsed(raw);
    ParsedCountable(ParseRaw(raw).value);
    FilterConserves(ParseRaw(raw).value, LegacyKind);
  }

  lemma KeptLegacy(types: seq<BtfType>, j: nat)
    requires Countable(types) && j < |FilterTypes(types, LegacyKind)|
    ensures LegacyKind(FilterTypes(types, LegacyKind)[j])
  {
    hide FilterTypes, KeptIds, OldType, Refs, WithRefs, Tracks, ByteLen;
    FilterAccepts(types, LegacyKind, j);
    FilterIsomorphism(types, LegacyKind, j);
  }

  // ---------- the names in the fixed section ----------

  /** The records as they stand in the bytes of the section. */
  ghost function RawTypes(bytes: seq<byte>): (ts: seq<BtfType>)
    requires ParseRaw(bytes).Ok?
  {
    DecodeAll(TypeBytes(HeaderOf(bytes), bytes))
  }

  /** The string table as it stands in the bytes of the section. */
  ghost function RawStrings(bytes: seq<byte>): (s: seq<byte>)
    requires ParseRaw(bytes).Ok?
  {
    StringBytes(HeaderOf(bytes), bytes)
  }

  /** The names parsing fixes are ASCII; any other string of the table may hold any bytes. */
  ghost predicate AsciiNames(bytes: seq<byte>)
    requires ParseRaw(bytes).Ok?
  {
    forall t :: t in RawTypes(bytes) ==> NameAscii(t, RawStrings(bytes))
  }

  lemma EraseNameNames(t: BtfType)
    ensures HasOwnName(EraseName(t)) <==> HasOwnName(t)
    ensures HasOwnName(t) ==> EraseName(t) == t
  {
    EraseNameShape(t);
  }

  lemma UndisturbedErased(raw: seq<BtfType>, ts: seq<BtfType>, i: nat, s: seq<byte>)
    requires |ts| == |raw| && i < |ts| && forall j :: 0 <= j < |ts| ==> ts[j] == EraseName(raw[j])
    requires Undisturbed(raw, i, s)
    ensures Undisturbed(ts, i, s)
  {
    hide HasOwnName, EraseName, NameAscii;
    forall j | 0 <= j < |ts| && j != i && Shares(ts[i], ts[j], s)
      ensures NameAscii(ts[i], s) && NameAscii(ts[j], s)
    {
      EraseNameNames(raw[i]);
      EraseNameNames(raw[j]);
    }
  }

  lemma ParsedStrings(bytes: seq<byte>)
    requires ParseRaw(bytes).Ok?
    ensures forall t :: t in ParseRaw(bytes).value.types ==> Named(t, RawStrings(bytes))
    ensures ParseRaw(bytes).value.strs == FixNames(ParseRaw(bytes).value.types, RawStrings(bytes))
  {
    hide ParseTypes, FixNames, Named, EraseName, DecodeAll, EncodeAll, TotalLen;
    ParseTypesOk(TypeBytes(HeaderOf(bytes), bytes), RawStrings(bytes));
  }

  /** The name of type `i + 1`, on the strings as they stand in the bytes, is left valid by the fixes
      of the names that share its string. */
  ghost predicate NameSanitised(bytes: seq<byte>, i: nat)
    requires ParseRaw(bytes).Ok? && i < |ParseRaw(bytes).value.types|
  {
    ParsedStrings(bytes);
    Sanitised(ParseRaw(bytes).value.types, i, RawStrings(bytes))
  }

  /** After parsing, a name obeys the rule of its kind if and only if the fixes of its own string leave
      it valid. If no multi-byte name shares that string, its own fix decides; and if the names are
      all ASCII, all of them obey their rules. */
  lemma ParsedNamesObey(bytes: seq<byte>)
    requires ParseRaw(bytes).Ok?
    ensures var sec, raw, s := ParseRaw(bytes).value, RawTypes(bytes), RawStrings(bytes);
            && |sec.types| == |raw|
            && (forall i :: 0 <= i < |raw| ==> (NameObeysRule(sec.types[i], sec.strs) <==> NameSanitised(bytes, i)))
            && (forall i :: 0 <= i < |raw| && Undisturbed(raw, i, s) ==>
                  (NameObeysRule(sec.types[i], sec.strs) <==> FixSuffices(raw[i], s)))
            && (AsciiNames(bytes) ==> forall t :: t in sec.types ==> NameObeysRule(t, sec.strs))
  {
    hide ParseTypes, FixNames, Undisturbed, Sanitised, Named, EraseName, NameObeysRule, FixSuffices, NameAscii,
      DecodeAll, EncodeAll;
    var raw, s := RawTypes(bytes), RawStrings(bytes);
    var ts := ParseRaw(bytes).value.types;
    ParseTypesOk(TypeBytes(HeaderOf(bytes), bytes), s);
    forall i | 0 <= i < |ts| ensures NameObeysRule(ts[i], FixNames(ts, s)) <==> NameSanitised(bytes, i) {
      SharedNamesExact(ts, s, i);
    }
    forall i | 0 <= i < |raw| && Undisturbed(raw, i, s)
      ensures NameObeysRule(ts[i], FixNames(ts, s)) <==> FixSuffices(raw[i], s)
    {
      UndisturbedErased(raw, ts, i, s);
      FixNamesExact(ts, s, i);
      ErasedPredicates(raw[i], s);
    }
    if AsciiNames(bytes) {
      forall i | 0 <= i < |ts| ensures NameAscii(ts[i], s) {
        ErasedPredicates(raw[i], s);
      }
      FixNamesFacts(ts, s);
    }
  }

  lemma ErasedPredicates(t: BtfType, s: seq<byte>)
    ensures FixSuffices(EraseName(t), s) <==> FixSuffices(t, s)
    ensures NameAscii(EraseName(t), s) <==> NameAscii(t, s)
  {
    hide HasOwnName, EraseName, TailAllowed, CStr;
    EraseNameNames(t);
  }

  ghost function KeptOf(raw: seq<byte>): (ids: seq<u32>)
    requires Fixable(raw)
    ensures forall j :: 0 <= j < |ids| ==> 1 <= ids[j] <= |RawTypes(raw)|
    ensures |RawTypes(raw)| == |ParseRaw(raw).value.types|
  {
    ParseRawParsed(raw);
    ParsedCountable(ParseRaw(raw).value);
    ParsedNamesObey(raw);
    KeptIds(ParseRaw(raw).value.types, LegacyKind)
  }

  // A chain of references from type `id` ends in a record of kind 14, 15 or 16.
  ghost predicate ChainToUnsupported(types: seq<BtfType>, p: seq<u32>, id: u32)
    requires Countable(types)
  {
    IsChain(GraphOf(types), p) && p[0] == id && KindOf(types[p[|p| - 1] - 1]) in {14, 15, 16}
  }

  /** Exactly the types from which no chain of references reaches a record of kind 14, 15 or 16 are
      kept: a variable, a data section or a floating point number. */
  lemma KeptExactly(raw: seq<byte>, id: u32)
    requires Fixable(raw)
    ensures Countable(ParseRaw(raw).value.types)
    ensures var types := ParseRaw(raw).value.types;
            id in KeptOf(raw) <==> 1 <= id <= |types| && !exists p :: ChainToUnsupported(types, p, id)
  {
    hide ParseRaw, Parsed, KeptIds, RawTypes;
    ParseRawParsed(raw);
    ParsedCountable(ParseRaw(raw).value);
    var types := ParseRaw(raw).value.types;
    FilterKeepsSurvivors(types, LegacyKind);
    forall p ensures ChainToUnsupported(types, p, id) <==>
                     LeadsToRejected(GraphOf(types), Rejected(types, LegacyKind), p, id)
    {
      if IsChain(GraphOf(types), p) {
        RejectedKinds(types, p[|p| - 1]);
      }
    }
  }

  lemma RejectedKinds(types: seq<BtfType>, id: u32)
    requires 1 <= id <= |types|
    ensures id in Rejected(types, LegacyKind) <==> KindOf(types[id - 1]) in {14, 15, 16}
  {
    LegacyKindExactly(types[id - 1]);
    assert RejectedAt(types, LegacyKind, id) <==> !LegacyKind(types[id - 1]);
  }

  /** Each kept name is left valid by the fixes of the names that share its string. */
  ghost predicate KeptSanitised(raw: seq<byte>)
    requires Fixable(raw)
  {
    forall j :: 0 <= j < |KeptOf(raw)| ==> NameSanitised(raw, KeptOf(raw)[j] - 1)
  }

  /** No kept name shares its string with a multi-byte name of another record. */
  ghost predicate KeptUndisturbed(raw: seq<byte>)
    requires Fixable(raw)
  {
    forall j :: 0 <= j < |KeptOf(raw)| ==> Undisturbed(RawTypes(raw), KeptOf(raw)[j] - 1, RawStrings(raw))
  }

  /** The bytes of each kept name that its own fix does not reach are allowed as they stand. */
  ghost predicate KeptFixSuffices(raw: seq<byte>)
    requires Fixable(raw)
  {
    forall j :: 0 <= j < |KeptOf(raw)| ==> FixSuffices(RawTypes(raw)[KeptOf(raw)[j] - 1], RawStrings(raw))
  }

  lemma KeptNames(raw: seq<byte>)
    requires Fixable(raw)
    ensures |Filtered(raw).types| == |KeptOf(raw)|
    ensures forall j :: 0 <= j < |KeptOf(raw)| ==>
              (NameObeysRule(Filtered(raw).types[j], Filtered(raw).strs) <==> NameSanitised(raw, KeptOf(raw)[j] - 1))
  {
    hide ParseRaw, Parsed, FilterTypes, KeptIds, Undisturbed, FixSuffices, AsciiNames, NameObeysRule, NameSanitised;
    ParseRawParsed(raw);
    ParsedNamesObey(raw);
    FilterConserves(ParseRaw(raw).value, LegacyKind);
    FilterKeepsParsed(ParseRaw(raw).value, LegacyKind);
  }

  lemma KeptCases(raw: seq<byte>)
    requires Fixable(raw)
    ensures KeptUndisturbed(raw) ==> (KeptSanitised(raw) <==> KeptFixSuffices(raw))
    ensures AsciiNames(raw) ==> KeptSanitised(raw)
  {
    hide ParseRaw, Printable, KeptOf, Undisturbed, FixSuffices, NameAscii, NameObeysRule, NameSanitised;
    ParsedNamesObey(raw);
  }

  /** The names that are left obey their rules if and only if the fixes of its string leave each one
      valid. When no multi-byte name shares a string with another name, that is if and only if the
      fix of each one suffices, and for ASCII names it always holds. */
  lemma FilteredNamesObey(raw: seq<byte>)
    requires Fixable(raw)
    ensures (forall t :: t in Filtered(raw).types ==> NameObeysRule(t, Filtered(raw).strs)) <==> KeptSanitised(raw)
    ensures KeptUndisturbed(raw) ==> (KeptSanitised(raw) <==> KeptFixSuffices(raw))
    ensures AsciiNames(raw) ==> KeptSanitised(raw)
  {
    hide ParseRaw, Filtered, KeptOf, KeptUndisturbed, KeptFixSuffices, AsciiNames, NameObeysRule, NameSanitised;
    KeptNames(raw);
    KeptCases(raw);
    var out := Filtered(raw);
    assert (forall t :: t in out.types ==> NameObeysRule(t, out.strs)) <==>
           forall j :: 0 <= j < |out.types| ==> NameObeysRule(out.types[j], out.strs);
  }

  lemma SectionReparses(raw: seq<byte>)
    requires Fixable(raw)
    ensures BtfParse.Dump(Filtered(raw)).Ok?
    ensures var out := BtfParse.Dump(Filtered(raw)).value;
            && |out| == |raw|
            && ParseRaw(out).Ok?
            && ParseRaw(out).value.hdr == Filtered(raw).hdr && ParseRaw(out).value.types == Filtered(raw).types
            && (ParseRaw(out) == Ok(Filtered(raw)) <==> KeptSanitised(raw))
  {
    hide ParseRaw, Parsed, BtfParse.Dump, FixNames, NameObeysRule, Printable, KeptSanitised, KeptUndisturbed,
      KeptFixSuffices, AsciiNames;
    DumpExact(Filtered(raw));
    ReparseDump(Filtered(raw));
    FilteredNamesObey(raw);
  }

  /** The fixed ELF has the old length and differs only inside the .BTF section. That section parses
      again to the filtered, renumbered types and the rebalanced header. Its strings are the
      filtered ones if and only if the fixes of its string leave each kept name valid; ASCII names
      always are, and if no multi-byte name shares a string with another, each name's own fix decides. */
  ghost predicate FixedInPlace(elf: seq<byte>, start: nat, end: nat, out: seq<byte>) {
    && start <= end <= |elf| && Fixable(elf[start..end]) &&
    var raw := elf[start..end];
    && |out| == |elf| && out[..start] == elf[..start] && out[end..] == elf[end..]
    && ParseRaw(out[start..end]).Ok?
    && ParseRaw(out[start..end]).value.hdr == Filtered(raw).hdr
    && ParseRaw(out[start..end]).value.types == Filtered(raw).types
    && (ParseRaw(out[start..end]) == Ok(Filtered(raw)) <==> KeptSanitised(raw))
    && (KeptUndisturbed(raw) ==> (ParseRaw(out[start..end]) == Ok(Filtered(raw)) <==> KeptFixSuffices(raw)))
    && (AsciiNames(raw) ==> ParseRaw(out[start..end]) == Ok(Filtered(raw)))
  }

  lemma LegacyFixReparses(elf: seq<byte>, start: nat, size: nat)
    requires start + size <= |elf| && Fixable(elf[start..start + size])
    ensures LegacyFix(elf, Some((start, size))).Ok?
    ensures FixedInPlace(elf, start, start + size, LegacyFix(elf, Some((start, size))).value)
  {
    hide ParseRaw, Filtered, BtfParse.Dump, AsciiNames, KeptSanitised, KeptUndisturbed, KeptFixSuffices, FixBytes,
      Fixable, NameObeysRule;
    var end := start + size;
    var raw := elf[start..end];
    SectionReparses(raw);
    FilteredNamesObey(raw);
    FixBytesResult(raw);
    var fixed := BtfParse.Dump(Filtered(raw)).value;
    var out := LegacyFix(elf, Some((start, size))).value;
    assert out[start..end] == fixed;
  }

  lemma FixBytesResult(raw: seq<byte>)
    requires Fixable(raw)
    ensures FixBytes(raw) == BtfParse.Dump(Filtered(raw))
  {
    hide ParseRaw, Parsed, FilterSection, BtfParse.Dump;
    ParseRawParsed(raw);
    FilterConserves(ParseRaw(raw).value, LegacyKind);
  }
}
