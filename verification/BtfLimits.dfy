/** Concrete sections on which the fix does not do what it is meant to do, one for each way in which
    the exact conditions of `BtfPipeline` and `BtfParse` can fail. */
module BtfLimits {
  import opened Bytes
  import opened BtfTypes
  import opened BtfNames
  import opened BtfParse
  import opened BtfGraph
  import opened BtfRenumber
  import opened BtfFilter
  import opened BtfPipeline
  import opened BtfRefilter

  lemma HeaderFirst(h: Header, rest: seq<byte>)
    ensures HeaderOf(EncHeader(h) + rest) == h
  {
    assert (EncHeader(h) + rest)[..HEADER_SIZE] == EncHeader(h);
    HeaderRoundTrip(h);
  }

  // A section without gaps after its header, with its strings anywhere in it.
  lemma ParseBuilt(h: Header, ts: seq<BtfType>, rest: seq<byte>)
    requires h.magic == BTF_MAGIC && h.version == 1 && h.hdrLen == HEADER_SIZE && h.typeOff == 0
    requires (forall t :: t in ts ==> Consistent(t)) && h.typeLen == |EncodeAll(ts)|
    requires h.strOff + h.strLen == |EncodeAll(ts) + rest| < 1000
    requires forall t :: t in ts ==> Named(t, (EncodeAll(ts) + rest)[h.strOff..])
    ensures var bytes, s := EncHeader(h) + EncodeAll(ts) + rest, (EncodeAll(ts) + rest)[h.strOff..];
            && |bytes| == HEADER_SIZE + h.strOff + h.strLen && HeaderOf(bytes) == h
            && ParseRaw(bytes) == Ok(Section(h, ts, FixNames(ts, s)))
            && RawTypes(bytes) == ts && RawStrings(bytes) == s
  {
    hide EncHeader, EncodeAll, FixNames, Named, Consistent, DecodeAll;
    var body := EncodeAll(ts) + rest;
    var bytes := EncHeader(h) + body;
    assert bytes == EncHeader(h) + EncodeAll(ts) + rest;
    HeaderFirst(h, body);
    assert TypeBytes(h, bytes) == EncodeAll(ts);
    assert StringBytes(h, bytes) == body[h.strOff..];
    ReparseTypes(ts, body[h.strOff..]);
    DecodeAllEncodeAll(ts);
  }

  lemma EncodeOne(t: BtfType)
    requires Consistent(t)
    ensures EncodeAll([t]) == Encode(t) && |Encode(t)| == ByteLen(t) == TotalLen([t])
  {
    EncodeLength(t);
    EncodeAllCons(t, []);
    assert [t] + [] == [t];
  }

  // ---------- header length ----------

  /** Counterexample: a section whose header is one byte longer than the 24 that `dump` prints is
      accepted by `parse_raw`, and the fix fails because the printed section is shorter. */
  lemma LongHeaderShrinks()
    ensures var raw: seq<byte> := EncHeader(Header(BTF_MAGIC, 1, 0, 25, 0, 0, 0, 1)) + [0, 0];
            ParseRaw(raw).Ok? && LegacyFix(raw, Some((0, 26))) == Err(Shrunk)
  {
    hide EncHeader, HeaderOf, LegacyFix;
    var h := Header(BTF_MAGIC, 1, 0, 25, 0, 0, 0, 1);
    var raw: seq<byte> := EncHeader(h) + [0, 0];
    HeaderFirst(h, [0, 0]);
    assert TypeBytes(h, raw) == [];
    ParseTypesNone(StringBytes(h, raw));
    assert raw[0..0 + 26] == raw;
    LegacyFixExact(raw, 0, 26);
  }

  /** Counterexample: one byte less, and the printed section is longer. */
  lemma ShortHeaderBloats()
    ensures var raw := EncHeader(Header(BTF_MAGIC, 1, 0, 23, 0, 0, 0, 1));
            ParseRaw(raw).Ok? && LegacyFix(raw, Some((0, 24))) == Err(Bloated)
  {
    hide EncHeader, HeaderOf, LegacyFix;
    var h := Header(BTF_MAGIC, 1, 0, 23, 0, 0, 0, 1);
    var raw := EncHeader(h);
    assert raw + [] == raw;
    HeaderFirst(h, []);
    assert TypeBytes(h, raw) == [];
    ParseTypesNone(StringBytes(h, raw));
    assert raw[0..0 + 24] == raw;
    LegacyFixExact(raw, 0, 24);
  }

  // ---------- strings that overlap the types ----------

  lemma NamelessNumber(t: BtfType)
    requires (t.Integer? || t.FloatingPoint?) && t.c.nameOff == 0
    ensures Named(t, Encode(t)) && Refs(t) == [] && 0 < ByteLen(t) < 100 && Countable([t])
  {
    assert Encode(t)[0] == 0;
  }

  // The filter on a section of one record without references.
  lemma FilterOne(t: BtfType)
    requires Refs(t) == []
    ensures TotalLen(FilterTypes([t], LegacyKind)) == if LegacyKind(t) then ByteLen(t) else 0
  {
    hide FilterTypes, ByteLen;
    var g, rejected := GraphOf([t]), Rejected([t], LegacyKind);
    FilterKeepsSurvivors([t], LegacyKind);
    FilteredTotal([t], LegacyKind);
    if LegacyKind(t) {
      assert rejected == {};
    } else {
      assert RejectedAt([t], LegacyKind, 1);
      RejectedDoomed(g, rejected, 1);
    }
  }

  /** A section of one number that serves as its own string table parses, and the fix fails: on the
      string offset if the number is kept, by underflow of that offset if it is removed. */
  lemma FixOverlapping(t: BtfType)
    requires Consistent(t) && (t.Integer? || t.FloatingPoint?) && t.c.nameOff == 0
    ensures ByteLen(t) < 100
    ensures var raw := EncHeader(Header(BTF_MAGIC, 1, 0, 24, 0, ByteLen(t), 0, ByteLen(t))) + Encode(t);
            && ParseRaw(raw).Ok?
            && LegacyFix(raw, Some((0, |raw|))) == Err(if LegacyKind(t) then BadStringOffset else Fault)
  {
    hide EncHeader, HeaderOf, LegacyFix, Encode, FixNames, ParseRaw, Named, Consistent, ByteLen, FilterTypes, Refs;
    NamelessNumber(t);
    var h := Header(BTF_MAGIC, 1, 0, 24, 0, ByteLen(t), 0, ByteLen(t));
    var raw := EncHeader(h) + Encode(t);
    EncodeOne(t);
    assert (Encode(t) + [])[0..] == Encode(t) && raw == EncHeader(h) + Encode(t) + [];
    ParseBuilt(h, [t], []);
    assert raw[0..0 + |raw|] == raw;
    FilterOne(t);
    LegacyFixExact(raw, 0, |raw|);
  }

  /** Counterexample: strings that overlap the types pass `parse_raw`; nothing is removed, and `dump`
      refuses the string offset. */
  lemma OverlappingStringsRefused()
    ensures var t := Integer(Common(0, 0x100_0000, 4), 0);
            var raw := EncHeader(Header(BTF_MAGIC, 1, 0, 24, 0, 16, 0, 16)) + Encode(t);
            ParseRaw(raw).Ok? && LegacyFix(raw, Some((0, |raw|))) == Err(BadStringOffset)
  {
    hide EncHeader, LegacyFix, Encode, ParseRaw;
    FixOverlapping(Integer(Common(0, 0x100_0000, 4), 0));
  }

  /** Counterexample: when the removed types are larger than the string offset, the offset underflows. */
  lemma OverlappingStringsFault()
    ensures var t := FloatingPoint(Common(0, 0x1000_0000, 4));
            var raw := EncHeader(Header(BTF_MAGIC, 1, 0, 24, 0, 12, 0, 12)) + Encode(t);
            ParseRaw(raw).Ok? && LegacyFix(raw, Some((0, |raw|))) == Err(Fault)
  {
    hide EncHeader, LegacyFix, Encode, ParseRaw;
    FixOverlapping(FloatingPoint(Common(0, 0x1000_0000, 4)));
  }

  // ---------- multi-byte names ----------

  const EACUTE: seq<byte> := [0, 0xC3, 0xA9, 0]

  /** Counterexample: a section with one integer named by a two-byte character is accepted by
      `parse_raw`, and its sanitised name still breaks the rule. */
  lemma MultiByteSection()
    ensures var t := Integer(Common(1, 0x100_0000, 4), 0);
            var raw := EncHeader(Header(BTF_MAGIC, 1, 0, 24, 0, 16, 16, 4)) + Encode(t) + EACUTE;
            ParseRaw(raw).Ok? && ParseRaw(raw).value.types == [t] && !NameObeysRule(t, ParseRaw(raw).value.strs)
  {
    hide EncHeader, HeaderOf, Encode, FixNames, ParseRaw, CStr, FixAt;
    var t := Integer(Common(1, 0x100_0000, 4), 0);
    var h := Header(BTF_MAGIC, 1, 0, 24, 0, 16, 16, 4);
    MultiByteNameStaysInvalid();
    EncodeOne(t);
    assert (Encode(t) + EACUTE)[16..] == EACUTE;
    ParseBuilt(h, [t], EACUTE);
    FixExact(Identifier, EACUTE, 1);
    FixNamesExact([t], EACUTE, 0);
  }

  // ---------- a name that shares its string with a multi-byte name ----------

  // A two-byte character before "a1", and "a1" as a name of its own; and the table after the longer
  // name has been fixed.
  const SHARED: seq<byte> := [0, 0xC3, 0xA9, 97, 49, 0]
  const SHIFTED: seq<byte> := [0, 95, 97, 49, 49, 0]
  const LONG := Integer(Common(1, 0x100_0000, 4), 0)
  const SHORT := Integer(Common(3, 0x100_0000, 4), 0)

  lemma SharedStrings()
    ensures Terminated(SHARED, 1) && CStr(SHARED, 1) == [0xC3, 0xA9, 97, 49]
    ensures Terminated(SHARED, 3) && CStr(SHARED, 3) == [97, 49]
    ensures Terminated(SHIFTED, 3) && CStr(SHIFTED, 3) == [49, 49]
  {
    assert SHARED[5] == 0 && SHIFTED[5] == 0;
  }

  lemma LongFixed()
    ensures Fixed(Identifier, [0xC3, 0xA9, 97, 49], true) == [95, 97, 49]
  {
    var name: seq<byte> := [0xC3, 0xA9, 97, 49];
    assert CharLen(name) == 2 && name[2..] == [97, 49];
    FixedAscii(Identifier, [97, 49], false);
    assert Fixed(Identifier, [97, 49], false) == [97, 49];
  }

  lemma SharedNames()
    ensures Consistent(SHORT) && Named(SHORT, SHARED) && Consistent(LONG) && Named(LONG, SHARED)
    ensures NameAscii(SHORT, SHARED) && NameObeysRule(SHORT, SHARED) && !NameObeysRule(SHORT, SHIFTED)
    ensures FixSuffices(SHORT, SHARED) && FixSuffices(LONG, SHARED)
  {
    hide CStr, Fixed, Terminated;
    SharedStrings();
    LongFixed();
    AsciiFixSuffices(SHORT, SHARED);
    assert SHARED[5] == 0;
    assert !Allowed(Identifier, CStr(SHIFTED, 3)[0], true);
  }

  lemma SharedFixed()
    ensures (forall t :: t in [SHORT, LONG] ==> Named(t, SHARED)) && FixNames([SHORT, LONG], SHARED) == SHIFTED
  {
    hide Fixed, CStr, Named, NameObeysRule, Degrades;
    SharedNames();
    SharedStrings();
    LongFixed();
    FixNamesStep([SHORT, LONG], SHARED);
    FixNameFacts(SHORT, SHARED);
    assert [SHORT, LONG][1..] == [LONG];
    FixNamesStep([LONG], SHARED);
    assert FixAt(Identifier, SHARED, 1) == SHIFTED;
  }

  lemma SharedLength()
    ensures |EncodeAll([SHORT, LONG])| == 32
  {
    hide EncodeAll, Encode;
    EncodeAllCons(SHORT, [LONG]);
    EncodeLength(SHORT);
    EncodeOne(LONG);
    assert [SHORT] + [LONG] == [SHORT, LONG];
  }

  lemma SharedParsed()
    ensures var raw := EncHeader(Header(BTF_MAGIC, 1, 0, 24, 0, 32, 32, 6)) + EncodeAll([SHORT, LONG]) + SHARED;
            && Fixable(raw) && ParseRaw(raw).value.types == [SHORT, LONG] && ParseRaw(raw).value.strs == SHIFTED
            && RawTypes(raw) == [SHORT, LONG] && RawStrings(raw) == SHARED
  {
    hide EncHeader, HeaderOf, EncodeAll, FixNames, ParseRaw, Named;
    var types, h := [SHORT, LONG], Header(BTF_MAGIC, 1, 0, 24, 0, 32, 32, 6);
    SharedNames();
    SharedFixed();
    SharedLength();
    assert (EncodeAll(types) + SHARED)[32..] == SHARED;
    ParseBuilt(h, types, SHARED);
  }

  lemma SharedKept()
    ensures Countable([SHORT, LONG]) && |KeptIds([SHORT, LONG], LegacyKind)| == 2
    ensures KeptIds([SHORT, LONG], LegacyKind)[0] == 1 && KeptIds([SHORT, LONG], LegacyKind)[1] == 2
    ensures DanglingClosed([SHORT, LONG], LegacyKind)
  {
    hide KeptIds, DanglingClosed;
    AllKept([SHORT, LONG], LegacyKind);
    NoDanglingClosed([SHORT, LONG], LegacyKind);
  }

  /** Counterexample: a valid ASCII name is broken by the fix of a multi-byte name it is the end of,
      although the own fix of each name suffices; and so fixing the fixed section changes it. */
  lemma SharedNameBroken()
    ensures var raw := EncHeader(Header(BTF_MAGIC, 1, 0, 24, 0, 32, 32, 6)) + EncodeAll([SHORT, LONG]) + SHARED;
            var once := LegacyFix(raw, Some((0, |raw|)));
            && Fixable(raw) && ParseRaw(raw).value.types == [SHORT, LONG] && RawStrings(raw) == SHARED
            && NameAscii(SHORT, SHARED) && NameObeysRule(SHORT, SHARED) && KeptFixSuffices(raw)
            && DanglingClosed([SHORT, LONG], LegacyKind)
            && !NameObeysRule(SHORT, ParseRaw(raw).value.strs)
            && once.Ok? && LegacyFix(once.value, Some((0, |raw|))) != once
  {
    hide EncHeader, EncodeAll, RawTypes, RawStrings, ParseRaw, LegacyFix, NameAscii, NameObeysRule, FixSuffices,
      NameSanitised, DanglingClosed, KeptUndisturbed, KeptIds, Printable;
    var raw := EncHeader(Header(BTF_MAGIC, 1, 0, 24, 0, 32, 32, 6)) + EncodeAll([SHORT, LONG]) + SHARED;
    SharedNames();
    SharedParsed();
    SharedKept();
    assert raw[0..0 + |raw|] == raw;
    ParsedNamesObey(raw);
    assert KeptOf(raw)[0] == 1 && !NameSanitised(raw, 0);
    LegacyFixIdempotent(raw, 0, |raw|);
  }

  // ---------- dangling ids ----------

  // A pointer to an id beyond the section, and a variable of a type with a smaller such id.
  const PTR := Pointer(Common(0, 0x200_0000, 100))
  const VAR := Variable(Common(1, 0xE00_0000, 50), 0)
  const LETTER: seq<byte> := [0, 97, 0]

  lemma PointerNotDoomed()
    ensures !Doomed(GraphOf([PTR, VAR]), Rejected([PTR, VAR], LegacyKind), 1)
  {
    var g, rejected := GraphOf([PTR, VAR]), Rejected([PTR, VAR], LegacyKind);
    assert 1 !in rejected && g[0] == [100];
    forall p | IsChain(g, p) && p[0] == 1 ensures |p| == 1 {
      assert |p| == 1 || RefersTo(g, p[0], p[1]);
    }
  }

  lemma PointerKept()
    ensures forall id: u32 :: id in KeptIds([PTR, VAR], LegacyKind) <==> id == 1
  {
    hide KeptIds, Doomed;
    var types := [PTR, VAR];
    FilterKeepsSurvivors(types, LegacyKind);
    assert RejectedAt(types, LegacyKind, 2);
    RejectedDoomed(GraphOf(types), Rejected(types, LegacyKind), 2);
    PointerNotDoomed();
  }

  lemma NotClosed()
    ensures !DanglingClosed([PTR, VAR], LegacyKind)
  {
    hide KeptIds;
    var types := [PTR, VAR];
    PointerKept();
    var kept := KeptIds(types, LegacyKind);
    assert Refs(PTR) == [100] && Refs(VAR) == [50];
    assert KeptRef(types, LegacyKind, 100) by {
      assert 1 in kept;
      var j :| 0 <= j < |kept| && kept[j] == 1;
      assert OldType(types, LegacyKind, j) == PTR;
    }
    assert !KeptRef(types, LegacyKind, 50) by {
      forall j | 0 <= j < |kept| ensures OldType(types, LegacyKind, j) == PTR {
        assert kept[j] in kept;
      }
    }
    assert RefersTo(GraphOf(types), 2, 50);
    AllKeysMember(GraphOf(types), 50);
  }

  /** Counterexample: the removed variable leaves a gap among the dangling ids, so that fixing the
      fixed section once more changes it. */
  lemma DanglingMoves()
    ensures var raw := EncHeader(Header(BTF_MAGIC, 1, 0, 24, 0, 28, 28, 3)) + EncodeAll([PTR, VAR]) + LETTER;
            var once := LegacyFix(raw, Some((0, |raw|)));
            Fixable(raw) && once.Ok? && LegacyFix(once.value, Some((0, |raw|))) != once
  {
    hide EncHeader, HeaderOf, EncodeAll, FixNames, ParseRaw, LegacyFix, Named, NameAscii, DanglingClosed,
      KeptUndisturbed;
    var types, h := [PTR, VAR], Header(BTF_MAGIC, 1, 0, 24, 0, 28, 28, 3);
    var raw := EncHeader(h) + EncodeAll(types) + LETTER;
    DanglingTypes();
    assert (EncodeAll(types) + LETTER)[28..] == LETTER;
    ParseBuilt(h, types, LETTER);
    assert raw[0..0 + |raw|] == raw;
    NotClosed();
    LegacyFixIdempotent(raw, 0, |raw|);
  }

  lemma DanglingTypes()
    ensures |EncodeAll([PTR, VAR])| == 28
    ensures forall t :: t in [PTR, VAR] ==> Consistent(t) && Named(t, LETTER) && NameAscii(t, LETTER)
  {
    hide EncodeAll, Encode, Named, NameAscii, ByteLen;
    DanglingLength();
    DanglingNames();
  }

  lemma DanglingLength()
    ensures |EncodeAll([PTR, VAR])| == 28
  {
    hide EncodeAll, Encode;
    EncodeAllCons(PTR, [VAR]);
    EncodeLength(PTR);
    EncodeOne(VAR);
    assert [PTR] + [VAR] == [PTR, VAR];
  }

  lemma DanglingNames()
    ensures Named(PTR, LETTER) && NameAscii(PTR, LETTER)
    ensures Named(VAR, LETTER) && NameAscii(VAR, LETTER)
  {
    assert LETTER[2] == 0;
  }
}
