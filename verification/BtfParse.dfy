/** Parsing and dumping of one BTF section, as functions on its bytes, and their round trips. */
module BtfParse {
  import opened Bytes
  import opened BtfTypes
  import opened BtfNames

  // ---------- one type record ----------

  datatype Naming = Required(rule: Rule) | Optional(rule: Rule) | Erased

  function NamingOf(t: BtfType): Naming {
    match t
    case TypeDef(_) => Required(Identifier)
    case Forward(_) => Required(Identifier)
    case Function(_) => Required(Identifier)
    case Variable(_, _) => Required(DottedName)
    case DataSection(_, _) => Required(DottedName)
    case Structure(_, _) => Optional(Identifier)
    case Union(_, _) => Optional(Identifier)
    case Enumeration(_, _) => Optional(Identifier)
    case Integer(_, _) => Optional(Identifier)
    case FloatingPoint(_) => Optional(Identifier)
    case _ => Erased
  }

  /** The record with the name offset cleared, for the kinds that must not carry a name. */
  function EraseName(t: BtfType): (t': BtfType) {
    match t
    case Pointer(c) => Pointer(c.(nameOff := 0))
    case Volatile(c) => Volatile(c.(nameOff := 0))
    case Constant(c) => Constant(c.(nameOff := 0))
    case Restrict(c) => Restrict(c.(nameOff := 0))
    case Array(c, a) => Array(c.(nameOff := 0), a)
    case FunctionProtocol(c, ps) => FunctionProtocol(c.(nameOff := 0), ps)
    case _ => t
  }

  // Member names are looked up while parsing; an offset outside the table only yields "".
  predicate MemberNamesReadable(t: BtfType, s: seq<byte>) {
    match t
    case Structure(_, ms) => forall m :: m in ms ==> m.nameOff < |s| ==> Terminated(s, m.nameOff)
    case Union(_, ms) => forall m :: m in ms ==> m.nameOff < |s| ==> Terminated(s, m.nameOff)
    case _ => true
  }

  /** The names a record needs can be read, and it has one if its kind demands it. */
  predicate Readable(t: BtfType, s: seq<byte>) {
    && Terminated(s, t.c.nameOff)
    && MemberNamesReadable(t, s)
    && (NamingOf(t).Required? ==> t.c.nameOff != 0)
  }

  /** The names can be read, and the record is named, or not, as its kind demands. */
  predicate Named(t: BtfType, s: seq<byte>) {
    Readable(t, s) && (NamingOf(t).Erased? ==> t.c.nameOff == 0)
  }

  /** The record carries a name of its own, which parsing therefore fixes. */
  predicate HasOwnName(t: BtfType) {
    !NamingOf(t).Erased? && t.c.nameOff != 0
  }

  /** The record's own name obeys the character rule of its kind. */
  predicate NameObeysRule(t: BtfType, s: seq<byte>) {
    HasOwnName(t) ==> Terminated(s, t.c.nameOff) && ValidName(NamingOf(t).rule, CStr(s, t.c.nameOff))
  }

  predicate NameAscii(t: BtfType, s: seq<byte>) {
    HasOwnName(t) ==> Terminated(s, t.c.nameOff) && AsciiOnly(CStr(s, t.c.nameOff))
  }

  /** The bytes of the record's name that its fix does not reach are allowed as they stand. */
  predicate FixSuffices(t: BtfType, s: seq<byte>) {
    HasOwnName(t) ==> Terminated(s, t.c.nameOff) && TailAllowed(NamingOf(t).rule, CStr(s, t.c.nameOff))
  }

  /** Both names are the same string of the table, or one is the end of the other. */
  predicate Shares(t: BtfType, u: BtfType, s: seq<byte>) {
    && HasOwnName(t) && HasOwnName(u) && Terminated(s, t.c.nameOff) && Terminated(s, u.c.nameOff)
    && StringEnd(s, t.c.nameOff) == StringEnd(s, u.c.nameOff)
  }

  /** The name of record `i` shares its string with no other record, or only among ASCII names. */
  predicate Undisturbed(ts: seq<BtfType>, i: nat, s: seq<byte>)
    requires i < |ts|
  {
    forall j :: 0 <= j < |ts| && j != i && Shares(ts[i], ts[j], s) ==> NameAscii(ts[i], s) && NameAscii(ts[j], s)
  }

  function FixName(t: BtfType, s: seq<byte>): (s': seq<byte>)
    requires Terminated(s, t.c.nameOff)
  {
    if HasOwnName(t) then FixAt(NamingOf(t).rule, s, t.c.nameOff) else s
  }

  predicate Decodable(enc: seq<byte>) {
    |enc| >= 12 &&
    var c := CommonAt(enc);
    1 <= c.Kind() <= MAX_KIND && 12 + 4 * ExtraWords(c.Kind(), c.Vlen()) <= |enc|
  }

  function CommonAt(enc: seq<byte>): (c: Common)
    requires |enc| >= 12
  {
    var ws := DecWords(enc[..12]);
    Common(ws[0], ws[1], ws[2])
  }

  /** The record at the start of `enc`, before any name is looked at. */
  function DecodeType(enc: seq<byte>): (t: BtfType)
    requires Decodable(enc)
    ensures Consistent(t) && ByteLen(t) <= |enc| && t.c == CommonAt(enc)
  {
    var c := CommonAt(enc);
    FromWords(c, DecWords(enc[12..12 + 4 * ExtraWords(c.Kind(), c.Vlen())]))
  }

  /** BtfType::parse: the record, and the string table after its name has been fixed. */
  function ParseType(enc: seq<byte>, s: seq<byte>): (r: Result<(BtfType, seq<byte>)>) {
    if |enc| < 12 then Err(Fault) else
    var c := CommonAt(enc);
    if c.nameOff >= |s| then Err(NameOutOfRange)
    else if !Terminated(s, c.nameOff) || c.Kind() > MAX_KIND then Err(Fault)
    else if c.Kind() == 0 then Err(UnknownKind)
    else if !Decodable(enc) then Err(Fault) else
    var t := DecodeType(enc);
    if !MemberNamesReadable(t, s) then Err(Fault)
    else if NamingOf(t).Required? && t.c.nameOff == 0 then Err(MissingName)
    else Ok((EraseName(t), FixName(t, s)))
  }

  lemma EncodeDecode(enc: seq<byte>)
    requires Decodable(enc)
    ensures Encode(DecodeType(enc)) == enc[..ByteLen(DecodeType(enc))]
  {
    hide EncWords, DecWords, PayloadWords, FromWords;
    var t := DecodeType(enc);
    var n := ByteLen(t);
    var ws := DecWords(enc[12..n]);
    PayloadOfFromWords(t.c, ws);
    EncWordsConcat(CommonWords(t.c), ws);
    BytesRoundTrip(enc[..12]);
    assert CommonWords(t.c) == DecWords(enc[..12]);
    BytesRoundTrip(enc[12..n]);
    assert enc[..n] == enc[..12] + enc[12..n];
  }

  lemma DecodeEncode(t: BtfType, rest: seq<byte>)
    requires Consistent(t)
    ensures Decodable(Encode(t) + rest) && DecodeType(Encode(t) + rest) == t
  {
    hide EncWords, DecWords, PayloadWords, FromWords;
    var enc, ws := Encode(t) + rest, PayloadWords(t);
    EncodeLength(t);
    EncWordsConcat(CommonWords(t.c), ws);
    FromWordsOfPayload(t);
    assert enc[..12] == EncWords(CommonWords(t.c));
    WordsRoundTrip(CommonWords(t.c));
    assert enc[12..ByteLen(t)] == EncWords(ws);
    WordsRoundTrip(ws);
  }

  lemma EraseNameShape(t: BtfType)
    ensures var t' := EraseName(t);
            KindOf(t') == KindOf(t) && t'.c.info == t.c.info && ByteLen(t') == ByteLen(t) &&
            (Consistent(t) ==> Consistent(t')) && PayloadWords(t') == PayloadWords(t) && Refs(t') == Refs(t)
    ensures EraseName(t) == t <==> (NamingOf(t).Erased? ==> t.c.nameOff == 0)
    ensures !NamingOf(t).Erased? ==> EraseName(t) == t
    ensures NamingOf(EraseName(t)) == NamingOf(t)
  {
  }

  lemma FixNameFacts(t: BtfType, s: seq<byte>)
    requires Terminated(s, t.c.nameOff)
    ensures Degrades(s, FixName(t, s)) && SameNuls(s, FixName(t, s))
    ensures FixName(t, s) == s <==> NameObeysRule(t, s)
    ensures Terminated(FixName(t, s), t.c.nameOff) && (Named(t, s) ==> Named(t, FixName(t, s)))
    ensures NameObeysRule(t, FixName(t, s)) <==> FixSuffices(t, s)
  {
    hide FixAt, Degrades, ValidName, TailAllowed, CStr, Named;
    if !HasOwnName(t) {
      DegradesReflexive(s);
    } else {
      var rule, off := NamingOf(t).rule, t.c.nameOff;
      FixDegrades(rule, s, off);
      FixIdentity(rule, s, off);
      FixExact(rule, s, off);
      NamedStable(t, s, FixName(t, s));
    }
  }

  lemma NamedStable(t: BtfType, s: seq<byte>, s': seq<byte>)
    requires Degrades(s, s')
    ensures Named(t, s) <==> Named(t, s')
    ensures Readable(t, s) <==> Readable(t, s')
  {
    NamedByNuls(t, s, s');
  }

  lemma NamedByNuls(t: BtfType, s: seq<byte>, s': seq<byte>)
    requires SameNuls(s, s')
    ensures Named(t, s) <==> Named(t, s')
    ensures Readable(t, s) <==> Readable(t, s')
  {
    forall off: nat {
      SameStringEnd(s, s', off);
    }
  }

  /** What a successfully parsed record guarantees. */
  lemma ParseTypeOk(enc: seq<byte>, s: seq<byte>)
    requires ParseType(enc, s).Ok?
    ensures var (t, s') := ParseType(enc, s).value;
            && Decodable(enc) && t == EraseName(DecodeType(enc))
            && Consistent(t) && ByteLen(t) == ByteLen(DecodeType(enc)) <= |enc|
            && Readable(DecodeType(enc), s) && Named(t, s) && s' == FixName(t, s)
  {
    var t0 := DecodeType(enc);
    EraseNameShape(t0);
    var t := EraseName(t0);
    if NamingOf(t).Erased? {
      var p :| t0.c.nameOff <= p < |s| && s[p] == 0;
      assert Terminated(s, 0);
    }
  }

  // ---------- the type section ----------

  function ParseTypes(enc: seq<byte>, s: seq<byte>): (r: Result<(seq<BtfType>, seq<byte>)>)
    decreases |enc|
  {
    if enc == [] then Ok(([], s)) else
    var (t, s1) :- ParseType(enc, s);
    if ByteLen(t) > |enc| then Err(Fault) else
    var (ts, s2) :- ParseTypes(enc[ByteLen(t)..], s1);
    Ok(([t] + ts, s2))
  }

  /** The records of the section as they stand in the bytes, names included. */
  function DecodeAll(enc: seq<byte>): (ts: seq<BtfType>)
    decreases |enc|
  {
    if !Decodable(enc) then []
    else var t := DecodeType(enc); [t] + DecodeAll(enc[ByteLen(t)..])
  }

  function FixNames(ts: seq<BtfType>, s: seq<byte>): (s': seq<byte>)
    requires forall t :: t in ts ==> Named(t, s)
    decreases |ts|
  {
    if ts == [] then s
    else
      assert Named(ts[0], s);
      FixNameFacts(ts[0], s);
      assert forall t :: t in ts[1..] ==> Named(t, FixName(ts[0], s)) by {
        forall t | t in ts[1..] { NamedStable(t, s, FixName(ts[0], s)); }
      }
      FixNames(ts[1..], FixName(ts[0], s))
  }

  lemma DegradesReflexive(s: seq<byte>)
    ensures Degrades(s, s)
  {
  }

  lemma NamedAllStable(ts: seq<BtfType>, s: seq<byte>, s': seq<byte>)
    requires Degrades(s, s') && forall t :: t in ts ==> Named(t, s)
    ensures forall t :: t in ts ==> Named(t, s')
  {
    forall t | t in ts ensures Named(t, s') { NamedStable(t, s, s'); }
  }

  // ---------- sanitising the shared table, name after name ----------

  lemma SharesStable(t: BtfType, u: BtfType, s: seq<byte>, s': seq<byte>)
    requires SameNuls(s, s')
    ensures Shares(t, u, s) <==> Shares(t, u, s')
  {
    hide StringEnd, Terminated, HasOwnName, SameNuls;
    var a: nat, b: nat := t.c.nameOff, u.c.nameOff;
    SameStringEnd(s, s', a);
    SameStringEnd(s, s', b);
  }

  lemma NameAsciiStable(t: BtfType, s: seq<byte>, s': seq<byte>)
    requires Degrades(s, s') && NameAscii(t, s)
    ensures NameAscii(t, s')
  {
    if HasOwnName(t) {
      AsciiStable(s, s', t.c.nameOff);
    }
  }

  lemma AsciiFixSuffices(t: BtfType, s: seq<byte>)
    requires NameAscii(t, s)
    ensures FixSuffices(t, s)
  {
    if HasOwnName(t) {
      AsciiTailAllowed(NamingOf(t).rule, CStr(s, t.c.nameOff));
    }
  }

  // Fixing another string leaves everything about this name alone.
  lemma FixOtherName(t: BtfType, u: BtfType, s: seq<byte>)
    requires Terminated(s, t.c.nameOff) && Terminated(s, u.c.nameOff) && !Shares(t, u, s)
    ensures NameObeysRule(t, FixName(u, s)) <==> NameObeysRule(t, s)
    ensures NameAscii(t, FixName(u, s)) <==> NameAscii(t, s)
    ensures FixSuffices(t, FixName(u, s)) <==> FixSuffices(t, s)
  {
    hide FixAt, ValidName, TailAllowed, AsciiOnly, CStr;
    if HasOwnName(t) && HasOwnName(u) {
      FixElsewhere(NamingOf(u).rule, s, u.c.nameOff, t.c.nameOff);
    }
  }

  // Fixing an ASCII name keeps every valid name valid, however the two overlap.
  lemma FixAsciiName(t: BtfType, u: BtfType, s: seq<byte>)
    requires Terminated(s, t.c.nameOff) && Terminated(s, u.c.nameOff) && NameAscii(u, s) && NameObeysRule(t, s)
    ensures NameObeysRule(t, FixName(u, s))
  {
    hide FixAt, ValidName, AsciiOnly, CStr, OnlyUnderscored;
    if HasOwnName(t) && HasOwnName(u) {
      FixDegrades(NamingOf(u).rule, s, u.c.nameOff);
      UnderscoresKeepValid(NamingOf(t).rule, s, FixName(u, s), t.c.nameOff);
    }
  }

  lemma FixNamesStep(ts: seq<BtfType>, s: seq<byte>)
    requires ts != [] && forall t :: t in ts ==> Named(t, s)
    ensures Terminated(s, ts[0].c.nameOff)
    ensures var s1 := FixName(ts[0], s);
            && Degrades(s, s1) && SameNuls(s, s1)
            && (forall t :: t in ts ==> Named(t, s1))
            && FixNames(ts, s) == FixNames(ts[1..], s1)
  {
    hide FixName, Named, Degrades, SameNuls;
    assert Named(ts[0], s);
    NamedTerminated(ts[0], s);
    FixNameFacts(ts[0], s);
    NamedAllStable(ts, s, FixName(ts[0], s));
  }

  /** Later fixes do not change whether `t` obeys its rule, if those of its string meet ASCII names. */
  lemma {:induction false} LaterFixes(t: BtfType, ts: seq<BtfType>, s: seq<byte>)
    requires Named(t, s) && forall u :: u in ts ==> Named(u, s)
    requires forall u :: u in ts && Shares(t, u, s) ==> NameAscii(u, s) && NameObeysRule(t, s)
    ensures NameObeysRule(t, FixNames(ts, s)) <==> NameObeysRule(t, s)
    decreases |ts|
  {
    hide FixName, Named, Degrades, SameNuls, Shares, NameAscii, NameObeysRule;
    if ts != [] {
      FixNamesStep(ts, s);
      var u, s1 := ts[0], FixName(ts[0], s);
      NamedTerminated(t, s);
      NamedStable(t, s, s1);
      if Shares(t, u, s) {
        FixAsciiName(t, u, s);
      } else {
        FixOtherName(t, u, s);
      }
      forall v | v in ts[1..] && Shares(t, v, s1) ensures NameAscii(v, s1) && NameObeysRule(t, s1) {
        SharesStable(t, v, s, s1);
        NameAsciiStable(v, s, s1);
      }
      LaterFixes(t, ts[1..], s1);
    }
  }

  /** Sanitising, exactly, name by name: whatever the other names are, the name of record `i` obeys
      its rule at the end if and only if its own fix suffices, provided it is undisturbed. */
  lemma {:induction false} FixNamesExact(ts: seq<BtfType>, s: seq<byte>, i: nat)
    requires forall t :: t in ts ==> Named(t, s)
    requires i < |ts| && Undisturbed(ts, i, s)
    ensures NameObeysRule(ts[i], FixNames(ts, s)) <==> FixSuffices(ts[i], s)
    decreases |ts|
  {
    hide FixName, Named, Degrades, SameNuls, Shares, NameAscii, NameObeysRule, FixSuffices;
    FixNamesStep(ts, s);
    var t, s1 := ts[i], FixName(ts[0], s);
    NamedTerminated(t, s);
    if i == 0 {
      FixNameFacts(t, s);
      FirstUndisturbed(ts, s);
      LaterFixes(t, ts[1..], s1);
    } else {
      if Shares(t, ts[0], s) {
        NameAsciiStable(t, s, s1);
        AsciiFixSuffices(t, s);
        AsciiFixSuffices(t, s1);
      } else {
        FixOtherName(t, ts[0], s);
      }
      RestUndisturbed(ts, i, s);
      FixNamesExact(ts[1..], s1, i - 1);
    }
  }

  lemma FirstUndisturbed(ts: seq<BtfType>, s: seq<byte>)
    requires ts != [] && Undisturbed(ts, 0, s) && Terminated(s, ts[0].c.nameOff)
    ensures var s1 := FixName(ts[0], s);
            forall u :: u in ts[1..] && Shares(ts[0], u, s1) ==> NameAscii(u, s1) && NameObeysRule(ts[0], s1)
  {
    hide FixName, Degrades, SameNuls, Shares, NameAscii, NameObeysRule, FixSuffices;
    var s1 := FixName(ts[0], s);
    FixNameFacts(ts[0], s);
    forall u | u in ts[1..] && Shares(ts[0], u, s1) ensures NameAscii(u, s1) && NameObeysRule(ts[0], s1) {
      var j :| 1 <= j < |ts| && ts[j] == u;
      SharesStable(ts[0], u, s, s1);
      AsciiFixSuffices(ts[0], s);
      NameAsciiStable(u, s, s1);
    }
  }

  lemma RestUndisturbed(ts: seq<BtfType>, i: nat, s: seq<byte>)
    requires 0 < i < |ts| && Undisturbed(ts, i, s) && Terminated(s, ts[0].c.nameOff)
    ensures Undisturbed(ts[1..], i - 1, FixName(ts[0], s))
  {
    hide FixName, Degrades, SameNuls, Shares, NameAscii, NameObeysRule, FixSuffices;
    var s1 := FixName(ts[0], s);
    FixNameFacts(ts[0], s);
    forall j | 1 <= j < |ts| && j != i && Shares(ts[i], ts[j], s1)
      ensures NameAscii(ts[i], s1) && NameAscii(ts[j], s1)
    {
      SharesStable(ts[i], ts[j], s, s1);
      NameAsciiStable(ts[i], s, s1);
      NameAsciiStable(ts[j], s, s1);
    }
  }

  /** The named records whose names end at `e`, in order. */
  function Sharers(ts: seq<BtfType>, s: seq<byte>, e: nat): (us: seq<BtfType>) {
    if ts == [] then []
    else (if NamedAt(ts[0], s, e) then [ts[0]] else []) + Sharers(ts[1..], s, e)
  }

  predicate NamedAt(t: BtfType, s: seq<byte>, e: nat) {
    HasOwnName(t) && Terminated(s, t.c.nameOff) && StringEnd(s, t.c.nameOff) == e
  }

  lemma {:induction false} SharersStable(ts: seq<BtfType>, s: seq<byte>, s': seq<byte>, e: nat)
    requires SameNuls(s, s')
    ensures Sharers(ts, s, e) == Sharers(ts, s', e)
    ensures forall u :: u in Sharers(ts, s, e) ==> u in ts
  {
    if ts != [] {
      hide StringEnd, Terminated, HasOwnName, SameNuls;
      SameStringEnd(s, s', ts[0].c.nameOff);
      SharersStable(ts[1..], s, s', e);
    }
  }

  lemma SharersNamed(ts: seq<BtfType>, s: seq<byte>, s': seq<byte>, e: nat)
    requires SameNuls(s, s') && forall t :: t in ts ==> Named(t, s)
    ensures forall u :: u in Sharers(ts, s, e) ==> Named(u, s')
  {
    hide Named;
    SharersStable(ts, s, s', e);
    forall u | u in Sharers(ts, s, e) ensures Named(u, s') {
      NamedByNuls(u, s, s');
    }
  }

  lemma FixAgrees(t: BtfType, s: seq<byte>, s': seq<byte>, e: nat)
    requires Terminated(s, t.c.nameOff) && AgreeOn(s, s', e)
    ensures NamedAt(t, s, e) ==> Terminated(s', t.c.nameOff) && AgreeOn(FixName(t, s), FixName(t, s'), e)
    ensures !NamedAt(t, s, e) ==> AgreeOn(FixName(t, s), s', e)
  {
    hide AgreeOn, FixAt;
    if NamedAt(t, s, e) {
      AgreeFixed(NamingOf(t).rule, s, s', t.c.nameOff, e);
    } else if HasOwnName(t) {
      AgreeElsewhere(NamingOf(t).rule, s, s', t.c.nameOff, e);
    }
  }

  /** Each string is sanitised on its own: what becomes of the names that end at `e` depends only on
      the records so named, whatever else is fixed in between. */
  lemma {:induction false} FixNamesLocal(ts: seq<BtfType>, s: seq<byte>, s': seq<byte>, e: nat)
    requires (forall t :: t in ts ==> Named(t, s)) && AgreeOn(s, s', e)
    ensures forall u :: u in Sharers(ts, s, e) ==> Named(u, s')
    ensures AgreeOn(FixNames(ts, s), FixNames(Sharers(ts, s, e), s'), e)
    decreases |ts|
  {
    hide FixName, Named, Degrades, SameNuls, NamedAt;
    AgreeNuls(s, s', e);
    SharersNamed(ts, s, s', e);
    if ts != [] {
      hide AgreeOn;
      FixNamesStep(ts, s);
      var s1, rest := FixName(ts[0], s), Sharers(ts[1..], s, e);
      SharersStable(ts[1..], s, s1, e);
      FixAgrees(ts[0], s, s', e);
      if NamedAt(ts[0], s, e) {
        FixNamesLocal(ts[1..], s1, FixName(ts[0], s'), e);
        assert ([ts[0]] + rest)[1..] == rest;
        FixNamesStep([ts[0]] + rest, s');
      } else {
        FixNamesLocal(ts[1..], s1, s', e);
        assert [] + rest == rest;
      }
    }
  }

  /** Fixing just the names that share the string of record `i` leaves its name valid. */
  predicate Sanitised(ts: seq<BtfType>, i: nat, s: seq<byte>)
    requires (forall t :: t in ts ==> Named(t, s)) && i < |ts|
  {
    NamedTerminated(ts[i], s);
    var e := StringEnd(s, ts[i].c.nameOff);
    SharersNamed(ts, s, s, e);
    NameObeysRule(ts[i], FixNames(Sharers(ts, s, e), s))
  }

  /** For every record, on every input: its name obeys the rule at the end if and only if it does
      after fixing just the names that share its string. */
  lemma SharedNamesExact(ts: seq<BtfType>, s: seq<byte>, i: nat)
    requires (forall t :: t in ts ==> Named(t, s)) && i < |ts|
    ensures NameObeysRule(ts[i], FixNames(ts, s)) <==> Sanitised(ts, i, s)
  {
    hide FixNames, Named, Degrades, Sharers, StringEnd, CStr, ValidName;
    if HasOwnName(ts[i]) {
      NamedTerminated(ts[i], s);
      var off := ts[i].c.nameOff;
      FixNamesLocal(ts, s, s, StringEnd(s, off));
      FixNamesFacts(ts, s);
      DegradesNuls(s, FixNames(ts, s));
      SameStringEnd(s, FixNames(ts, s), off);
    }
  }

  lemma DegradesNuls(s: seq<byte>, s': seq<byte>)
    requires Degrades(s, s')
    ensures SameNuls(s, s')
  {
  }

  lemma AgreeNuls(s: seq<byte>, s': seq<byte>, e: nat)
    requires AgreeOn(s, s', e)
    ensures SameNuls(s, s')
  {
  }

  /** Over all names, however they overlap: only degradation happens, the table is left alone
      exactly when every name obeyed its rule already, and when the names (not the whole table) are
      ASCII, every one obeys its rule at the end. */
  lemma {:induction false} FixNamesFacts(ts: seq<BtfType>, s: seq<byte>)
    requires forall t :: t in ts ==> Named(t, s)
    ensures Degrades(s, FixNames(ts, s))
    ensures forall t :: t in ts ==> Named(t, FixNames(ts, s))
    ensures FixNames(ts, s) == s <==> forall t :: t in ts ==> NameObeysRule(t, s)
    ensures (forall t :: t in ts ==> NameAscii(t, s)) ==> forall t :: t in ts ==> NameObeysRule(t, FixNames(ts, s))
    decreases |ts|
  {
    hide FixName, Named, Degrades, NameObeysRule, NameAscii, Shares, FixSuffices;
    if ts == [] {
      DegradesReflexive(s);
    } else {
      FixNamesStep(ts, s);
      var s1, s2 := FixName(ts[0], s), FixNames(ts, s);
      FixNameFacts(ts[0], s);
      FixNamesFacts(ts[1..], s1);
      DegradesTransitive(s, s1, s2);
      NamedAllStable(ts, s, s2);
      if s2 == s {
        DegradesAntisymmetric(s, s1);
      }
      assert forall t :: t in ts <==> t == ts[0] || t in ts[1..];
      if forall t :: t in ts ==> NameAscii(t, s) {
        AsciiNamesObey(ts, s);
      }
    }
  }

  lemma AsciiNamesObey(ts: seq<BtfType>, s: seq<byte>)
    requires forall t :: t in ts ==> Named(t, s) && NameAscii(t, s)
    ensures forall t :: t in ts ==> NameObeysRule(t, FixNames(ts, s))
  {
    hide FixNames, Named, NameObeysRule, NameAscii, Shares, FixSuffices;
    forall i | 0 <= i < |ts| ensures NameObeysRule(ts[i], FixNames(ts, s)) {
      FixNamesExact(ts, s, i);
      AsciiFixSuffices(ts[i], s);
    }
  }

  lemma {:induction false} ParseTypesDecode(enc: seq<byte>, s: seq<byte>)
    requires ParseTypes(enc, s).Ok?
    ensures var ts := ParseTypes(enc, s).value.0;
            && |ts| == |DecodeAll(enc)|
            && (forall i :: 0 <= i < |ts| ==> ts[i] == EraseName(DecodeAll(enc)[i]) && Consistent(ts[i]))
            && EncodeAll(DecodeAll(enc)) == enc
            && TotalLen(ts) == |enc|
    decreases |enc|
  {
    hide *;
    if enc == [] {
      ParseTypesNone(s);
    } else {
      ParseTypesStep(enc, s);
      var (t, s1) := ParseType(enc, s).value;
      var t0, rest := DecodeType(enc), enc[ByteLen(t)..];
      ParseTypesDecode(rest, s1);
      EncodeAllCons(t0, DecodeAll(rest));
      EncodeAllCons(t, ParseTypes(rest, s1).value.0);
      assert enc == enc[..ByteLen(t)] + rest;
    }
  }

  lemma ParseTypesNone(s: seq<byte>)
    ensures ParseTypes([], s) == Ok(([], s)) && DecodeAll([]) == [] && EncodeAll([]) == [] && TotalLen([]) == 0
  {
  }

  lemma ParseTypesStep(enc: seq<byte>, s: seq<byte>)
    requires enc != [] && ParseTypes(enc, s).Ok?
    ensures ParseType(enc, s).Ok?
    ensures var (t, s1) := ParseType(enc, s).value;
            && Decodable(enc) && Consistent(t) && t == EraseName(DecodeType(enc)) && 0 < ByteLen(t) <= |enc|
            && Encode(DecodeType(enc)) == enc[..ByteLen(t)]
            && DecodeAll(enc) == [DecodeType(enc)] + DecodeAll(enc[ByteLen(t)..])
            && ParseTypes(enc[ByteLen(t)..], s1).Ok?
            && ParseTypes(enc, s).value.0 == [t] + ParseTypes(enc[ByteLen(t)..], s1).value.0
            && ParseTypes(enc, s).value.1 == ParseTypes(enc[ByteLen(t)..], s1).value.1
  {
    hide ParseType, DecodeType, Encode, EraseName, Consistent, FixName, Named, Decodable;
    ParseTypeOk(enc, s);
    EncodeDecode(enc);
  }

  lemma {:induction false} ParseTypesNames(enc: seq<byte>, s: seq<byte>)
    requires ParseTypes(enc, s).Ok?
    ensures var (ts, s') := ParseTypes(enc, s).value;
            (forall t :: t in ts ==> Named(t, s)) && s' == FixNames(ts, s)
    decreases |enc|
  {
    if enc != [] {
      hide ParseType, DecodeType, EraseName, Consistent, FixName, ByteLen, Named, Degrades, Decodable;
      ParseTypeOk(enc, s);
      var (t, s1) := ParseType(enc, s).value;
      NamedTerminated(t, s);
      FixNameFacts(t, s);
      var rest := enc[ByteLen(t)..];
      ParseTypesNames(rest, s1);
      var ts := ParseTypes(rest, s1).value.0;
      assert ([t] + ts)[1..] == ts;
      forall t' | t' in [t] + ts ensures Named(t', s) {
        if t' in ts { NamedStable(t', s, s1); }
      }
    }
  }

  lemma NamedTerminated(t: BtfType, s: seq<byte>)
    requires Named(t, s)
    ensures Terminated(s, t.c.nameOff)
  {
  }

  lemma ParseTypesOk(enc: seq<byte>, s: seq<byte>)
    requires ParseTypes(enc, s).Ok?
    ensures var (ts, s') := ParseTypes(enc, s).value;
            && |ts| == |DecodeAll(enc)|
            && (forall i :: 0 <= i < |ts| ==> ts[i] == EraseName(DecodeAll(enc)[i]))
            && EncodeAll(DecodeAll(enc)) == enc
            && TotalLen(ts) == |enc|
            && (forall t :: t in ts ==> Consistent(t) && Named(t, s))
            && s' == FixNames(ts, s)
  {
    hide *;
    ParseTypesDecode(enc, s);
    ParseTypesNames(enc, s);
  }

  lemma EncodePositive(t: BtfType)
    requires Consistent(t)
    ensures |Encode(t)| == ByteLen(EraseName(t)) == ByteLen(t) > 0
  {
    EncodeLength(t);
    EraseNameShape(t);
  }

  lemma AcceptType(t: BtfType, s: seq<byte>, rest: seq<byte>)
    requires Consistent(t) && Readable(t, s)
    ensures ParseType(Encode(t) + rest, s).Ok?
    ensures ParseType(Encode(t) + rest, s).value == (EraseName(t), FixName(t, s))
  {
    DecodeEncode(t, rest);
  }

  lemma {:induction false} AcceptTypes(ts: seq<BtfType>, s: seq<byte>)
    requires forall t :: t in ts ==> Consistent(t) && Readable(t, s)
    ensures ParseTypes(EncodeAll(ts), s).Ok?
    decreases |ts|
  {
    if ts != [] {
      hide ParseType, Encode, Consistent, FixName, ByteLen, Readable, Degrades, EncodeAll, EraseName;
      var t, rest := ts[0], ts[1..];
      AcceptType(t, s, EncodeAll(rest));
      ReadableFixed(t, s);
      var s1 := FixName(t, s);
      forall u | u in rest ensures Readable(u, s1) {
        NamedStable(u, s, s1);
      }
      AcceptTypes(rest, s1);
      assert ts == [t] + rest;
      EncodeAllCons(t, rest);
      EncodePositive(t);
      var enc := Encode(t) + EncodeAll(rest);
      assert enc[ByteLen(t)..] == EncodeAll(rest);
    }
  }

  lemma ReadableFixed(t: BtfType, s: seq<byte>)
    requires Readable(t, s)
    ensures Terminated(s, t.c.nameOff) && Degrades(s, FixName(t, s))
  {
    FixNameFacts(t, s);
  }

  lemma {:induction false} AcceptedReadable(enc: seq<byte>, s: seq<byte>)
    requires ParseTypes(enc, s).Ok?
    ensures forall t :: t in DecodeAll(enc) ==> Readable(t, s)
    decreases |enc|
  {
    if enc == [] {
      ParseTypesNone(s);
    } else {
      hide ParseType, ParseTypes, DecodeAll, DecodeType, EraseName, Consistent, FixName, ByteLen, Readable, Degrades,
        Decodable;
      ParseTypesStep(enc, s);
      ParseTypeOk(enc, s);
      var (t, s1) := ParseType(enc, s).value;
      NamedTerminated(t, s);
      FixNameFacts(t, s);
      var rest := enc[ByteLen(t)..];
      AcceptedReadable(rest, s1);
      forall u | u in DecodeAll(rest) ensures Readable(u, s) {
        NamedStable(u, s, s1);
      }
    }
  }

  /** Parsing accepts exactly the concatenations of well-formed records whose names can be read. */
  lemma ParseTypesExact(enc: seq<byte>, s: seq<byte>)
    ensures ParseTypes(enc, s).Ok? <==>
            EncodeAll(DecodeAll(enc)) == enc && forall t :: t in DecodeAll(enc) ==> Readable(t, s)
  {
    hide ParseTypes, EncodeAll, DecodeAll, Readable, Consistent;
    if ParseTypes(enc, s).Ok? {
      ParseTypesOk(enc, s);
      AcceptedReadable(enc, s);
    }
    if EncodeAll(DecodeAll(enc)) == enc && forall t :: t in DecodeAll(enc) ==> Readable(t, s) {
      DecodeAllConsistent(enc);
      AcceptTypes(DecodeAll(enc), s);
    }
  }

  lemma {:induction false} DecodeAllEncodeAll(ts: seq<BtfType>)
    requires forall t :: t in ts ==> Consistent(t)
    ensures DecodeAll(EncodeAll(ts)) == ts
  {
    if ts != [] {
      hide Encode, DecodeType, Consistent, ByteLen, Decodable;
      var t, rest := ts[0], EncodeAll(ts[1..]);
      DecodeEncode(t, rest);
      EncodeLength(t);
      DecodeAllEncodeAll(ts[1..]);
      assert EncodeAll(ts)[ByteLen(t)..] == rest;
    } else {
      assert !Decodable([]);
    }
  }

  lemma NamedClean(t: BtfType, s: seq<byte>)
    requires Named(t, s)
    ensures EraseName(t) == t && Readable(t, s)
  {
    EraseNameShape(t);
  }

  /** Parsing an encoding of named records gives the same records and fixes their names. */
  lemma ReparseTypes(ts: seq<BtfType>, s: seq<byte>)
    requires forall t :: t in ts ==> Consistent(t) && Named(t, s)
    ensures ParseTypes(EncodeAll(ts), s) == Ok((ts, FixNames(ts, s)))
  {
    hide ParseTypes, EncodeAll, DecodeAll, FixNames, EraseName, Named, Consistent, Readable;
    forall t | t in ts ensures EraseName(t) == t && Readable(t, s) {
      NamedClean(t, s);
    }
    AcceptTypes(ts, s);
    DecodeAllEncodeAll(ts);
    ParseTypesOk(EncodeAll(ts), s);
    assert ParseTypes(EncodeAll(ts), s).value.0 == ts;
  }

  lemma EncodeAllInjective(ts: seq<BtfType>, us: seq<BtfType>)
    requires forall t :: t in ts ==> Consistent(t)
    requires forall u :: u in us ==> Consistent(u)
    requires EncodeAll(ts) == EncodeAll(us)
    ensures ts == us
  {
    DecodeAllEncodeAll(ts);
    DecodeAllEncodeAll(us);
  }

  lemma {:induction false} DecodeAllConsistent(enc: seq<byte>)
    ensures forall t :: t in DecodeAll(enc) ==> Consistent(t)
    decreases |enc|
  {
    if Decodable(enc) {
      DecodeAllConsistent(enc[ByteLen(DecodeType(enc))..]);
    }
  }

  // ---------- the whole section ----------

  const BTF_MAGIC: u16 := 0xEB9F
  const HEADER_SIZE := 24
  const U32_LIMIT := 0x1_0000_0000

  datatype Header = Header(
    magic: u16, version: byte, flags: byte,
    hdrLen: u32, typeOff: u32, typeLen: u32, strOff: u32, strLen: u32)

  datatype Section = Section(hdr: Header, types: seq<BtfType>, strs: seq<byte>)

  function EncHeader(h: Header): (b: seq<byte>)
    ensures |b| == HEADER_SIZE
  {
    [h.magic % 0x100, h.magic / 0x100, h.version, h.flags]
    + EncWords([h.hdrLen, h.typeOff, h.typeLen, h.strOff, h.strLen])
  }

  function DecHeader(b: seq<byte>): (h: Header)
    requires |b| == HEADER_SIZE
  {
    var ws := DecWords(b[4..]);
    var lo: int, hi: int := b[0], b[1];
    Header(lo + 0x100 * hi, b[2], b[3], ws[0], ws[1], ws[2], ws[3], ws[4])
  }

  lemma HeaderRoundTrip(h: Header)
    ensures DecHeader(EncHeader(h)) == h
  {
    var ws := [h.hdrLen, h.typeOff, h.typeLen, h.strOff, h.strLen];
    assert EncHeader(h)[4..] == EncWords(ws);
    WordsRoundTrip(ws);
  }

  lemma HeaderBytesRoundTrip(b: seq<byte>)
    requires |b| == HEADER_SIZE
    ensures EncHeader(DecHeader(b)) == b
  {
    var h := DecHeader(b);
    var ws := DecWords(b[4..]);
    BytesRoundTrip(b[4..]);
    assert ws == [h.hdrLen, h.typeOff, h.typeLen, h.strOff, h.strLen];
    assert b == b[..4] + b[4..];
    assert b[..4] == [h.magic % 0x100, h.magic / 0x100, h.version, h.flags];
  }

  function HeaderOf(bytes: seq<byte>): (h: Header)
    requires |bytes| >= HEADER_SIZE
  {
    DecHeader(bytes[..HEADER_SIZE])
  }

  // The slice of the type records; `h` may place it anywhere inside the bytes.
  function TypeBytes(h: Header, bytes: seq<byte>): seq<byte>
    requires h.hdrLen + h.typeOff + h.typeLen <= |bytes|
  {
    bytes[h.hdrLen + h.typeOff..h.hdrLen + h.typeOff + h.typeLen]
  }

  function StringBytes(h: Header, bytes: seq<byte>): seq<byte>
    requires h.hdrLen + h.strOff + h.strLen == |bytes|
  {
    bytes[h.hdrLen + h.strOff..]
  }

  function CheckHeader(h: Header, size: nat): (r: Result<()>) {
    if h.magic != BTF_MAGIC then Err(BadMagic)
    else if h.version != 1 then Err(BadVersion)
    else if h.hdrLen + h.strOff + h.strLen >= U32_LIMIT then Err(Fault)
    else if h.hdrLen + h.strOff + h.strLen != size then Err(BadLength)
    else if h.hdrLen + h.typeOff + h.typeLen > size then Err(Fault)
    else Ok(())
  }

  /** BTF::parse_raw. A u32 sum that overflows and a slice out of bounds are faults. */
  function ParseRaw(bytes: seq<byte>): (r: Result<Section>) {
    if |bytes| < HEADER_SIZE then Err(TooSmall) else
    var h := HeaderOf(bytes);
    var _ :- CheckHeader(h, |bytes|);
    var (ts, s) :- ParseTypes(TypeBytes(h, bytes), StringBytes(h, bytes));
    Ok(Section(h, ts, s))
  }

  /** BTF::dump. */
  function Dump(sec: Section): (r: Result<seq<byte>>) {
    var h := sec.hdr;
    var head := EncHeader(h) + Zeros(h.typeOff) + EncodeAll(sec.types);
    if h.typeOff + h.typeLen >= U32_LIMIT then Err(Fault)
    else if |head| != HEADER_SIZE + h.typeOff + h.typeLen then Err(TypeLengthMismatch)
    else if HEADER_SIZE + h.strOff < |head| then Err(BadStringOffset) else
    var out := head + Zeros(HEADER_SIZE + h.strOff - |head|) + sec.strs;
    if h.strOff + h.strLen >= U32_LIMIT then Err(Fault)
    else if HEADER_SIZE + h.strOff + h.strLen != |out| then Err(StringLengthMismatch)
    else Ok(out)
  }

  /** What parse_raw guarantees of every section it accepts. */
  ghost predicate Parsed(sec: Section) {
    var h := sec.hdr;
    && h.magic == BTF_MAGIC && h.version == 1
    && h.hdrLen + h.strOff + h.strLen < U32_LIMIT
    && h.hdrLen + h.typeOff + h.typeLen <= h.hdrLen + h.strOff + h.strLen
    && h.strLen == |sec.strs|
    && h.typeLen == TotalLen(sec.types)
    && forall t :: t in sec.types ==> Consistent(t) && Named(t, sec.strs)
  }

  /** The layout `dump` can print: its own header size, and strings after the types. */
  predicate Printable(h: Header) {
    h.hdrLen == HEADER_SIZE && h.typeOff + h.typeLen <= h.strOff
  }

  lemma ParseRawParsed(bytes: seq<byte>)
    requires ParseRaw(bytes).Ok?
    ensures Parsed(ParseRaw(bytes).value)
    ensures var h := ParseRaw(bytes).value.hdr;
            h == HeaderOf(bytes) && |bytes| == h.hdrLen + h.strOff + h.strLen
  {
    hide ParseTypes, FixNames, DecodeAll, EncodeAll, TotalLen, Named, Consistent, NameAscii, NameObeysRule, Degrades;
    var h := HeaderOf(bytes);
    var enc, s := TypeBytes(h, bytes), StringBytes(h, bytes);
    ParseTypesOk(enc, s);
    var ts := ParseTypes(enc, s).value.0;
    FixNamesFacts(ts, s);
    DegradesNuls(s, FixNames(ts, s));
  }

  /** For a parsed section, dump succeeds exactly when the strings lie after the types; the two
      length-mismatch errors cannot occur. */
  lemma DumpExact(sec: Section)
    requires Parsed(sec)
    ensures Dump(sec).Ok? <==> sec.hdr.typeOff + sec.hdr.typeLen <= sec.hdr.strOff
    ensures Dump(sec).Err? ==> Dump(sec).error == BadStringOffset
    ensures Dump(sec).Ok? ==> |Dump(sec).value| == HEADER_SIZE + sec.hdr.strOff + sec.hdr.strLen
  {
    EncodeAllLength(sec.types);
  }

  // Where the pieces of a section lie in its dump.
  lemma DumpPieces(sec: Section)
    requires Dump(sec).Ok? && sec.hdr.hdrLen == HEADER_SIZE
    ensures var h, b := sec.hdr, Dump(sec).value;
            && |b| == HEADER_SIZE + h.strOff + h.strLen && h.typeOff + h.typeLen <= h.strOff
            && HeaderOf(b) == h
            && TypeBytes(h, b) == EncodeAll(sec.types)
            && StringBytes(h, b) == sec.strs
  {
    hide Dump, EncHeader, DecHeader, EncodeAll, Zeros;
    var h, b := sec.hdr, Dump(sec).value;
    DumpShape(sec);
    FiveParts(b, EncHeader(h), Zeros(h.typeOff), EncodeAll(sec.types), Zeros(h.strOff - h.typeOff - h.typeLen),
              sec.strs);
    HeaderRoundTrip(h);
  }

  /** Parsing what was dumped gives back the header and the types, and the strings with every name
      fixed: unchanged if and only if all names obeyed their rules. */
  lemma ReparseDump(sec: Section)
    requires Parsed(sec) && Printable(sec.hdr)
    ensures Dump(sec).Ok?
    ensures ParseRaw(Dump(sec).value) == Ok(sec.(strs := FixNames(sec.types, sec.strs)))
    ensures ParseRaw(Dump(sec).value) == Ok(sec) <==>
            forall t :: t in sec.types ==> NameObeysRule(t, sec.strs)
  {
    hide Dump, ParseTypes, FixNames, EncodeAll, HeaderOf, TypeBytes, StringBytes, Degrades, NameObeysRule, TotalLen;
    DumpExact(sec);
    DumpPieces(sec);
    ReparseTypes(sec.types, sec.strs);
    FixNamesFacts(sec.types, sec.strs);
  }

  // Gaps before the types and between types and strings.
  predicate GapsZero(h: Header, bytes: seq<byte>)
    requires |bytes| == HEADER_SIZE + h.strOff + h.strLen && h.typeOff + h.typeLen <= h.strOff
  {
    bytes[HEADER_SIZE..HEADER_SIZE + h.typeOff] == Zeros(h.typeOff) &&
    bytes[HEADER_SIZE + h.typeOff + h.typeLen..HEADER_SIZE + h.strOff]
      == Zeros(h.strOff - h.typeOff - h.typeLen)
  }

  // No record whose kind must be nameless carries a name offset.
  predicate NamelessClean(ts: seq<BtfType>) {
    forall t :: t in ts ==> EraseName(t) == t
  }

  lemma {:induction false} ErasedAllEqual(ts: seq<BtfType>, raw: seq<BtfType>)
    requires |ts| == |raw| && forall i :: 0 <= i < |ts| ==> ts[i] == EraseName(raw[i])
    ensures ts == raw <==> NamelessClean(raw)
  {
    if NamelessClean(raw) {
      forall i | 0 <= i < |ts| ensures ts[i] == raw[i] {
        assert raw[i] in raw;
      }
    }
  }

  /** Dumping what was parsed restores the bytes, for exactly the inputs that have the printable
      layout, whose gaps are zero, whose nameless kinds are nameless and whose names obey their rules. */
  lemma DumpParse(bytes: seq<byte>)
    requires ParseRaw(bytes).Ok?
    ensures var h := HeaderOf(bytes);
            var raw, strs := DecodeAll(TypeBytes(h, bytes)), StringBytes(h, bytes);
            Dump(ParseRaw(bytes).value) == Ok(bytes) <==>
            Printable(h) && GapsZero(h, bytes) && NamelessClean(raw) && forall t :: t in raw ==> NameObeysRule(t, strs)
  {
    hide DecodeAll, NameObeysRule, EncodeAll, Dump, ParseTypes, Parsed;
    var sec := ParseRaw(bytes).value;
    var h := sec.hdr;
    ParseRawParsed(bytes);
    DumpExact(sec);
    if Printable(h) {
      PartsUnchanged(TypeBytes(h, bytes), StringBytes(h, bytes));
      HeaderBytesRoundTrip(bytes[..HEADER_SIZE]);
      SameParts(bytes, sec);
    }
  }

  // Parsing leaves both parts of the section as they were, for exactly the clean inputs.
  lemma PartsUnchanged(enc: seq<byte>, strs: seq<byte>)
    requires ParseTypes(enc, strs).Ok?
    ensures var (ts, strs') := ParseTypes(enc, strs).value;
            EncodeAll(ts) == enc && strs' == strs <==>
            NamelessClean(DecodeAll(enc)) && forall t :: t in DecodeAll(enc) ==> NameObeysRule(t, strs)
  {
    var (ts, strs') := ParseTypes(enc, strs).value;
    var raw := DecodeAll(enc);
    ParseTypesOk(enc, strs);
    FixNamesFacts(ts, strs);
    ErasedAllEqual(ts, raw);
    if EncodeAll(ts) == enc {
      DecodeAllConsistent(enc);
      EncodeAllInjective(ts, raw);
    }
  }

  // A dump equals the bytes it came from exactly when its four variable parts do.
  lemma SameParts(bytes: seq<byte>, sec: Section)
    requires |bytes| == HEADER_SIZE + sec.hdr.strOff + sec.hdr.strLen && Printable(sec.hdr)
    requires bytes[..HEADER_SIZE] == EncHeader(sec.hdr)
    requires Dump(sec).Ok?
    ensures Dump(sec).value == bytes <==>
            GapsZero(sec.hdr, bytes) && sec.strs == StringBytes(sec.hdr, bytes) &&
            EncodeAll(sec.types) == TypeBytes(sec.hdr, bytes)
  {
    DumpShape(sec);
    LayoutParts(bytes, sec.hdr, EncHeader(sec.hdr), EncodeAll(sec.types), sec.strs);
  }

  lemma DumpShape(sec: Section)
    requires Dump(sec).Ok?
    ensures var h := sec.hdr;
            && |EncodeAll(sec.types)| == h.typeLen && |sec.strs| == h.strLen && h.typeOff + h.typeLen <= h.strOff
            && Dump(sec).value == EncHeader(h) + Zeros(h.typeOff) + EncodeAll(sec.types)
                                  + Zeros(h.strOff - h.typeOff - h.typeLen) + sec.strs
  {
  }

  lemma LayoutParts(bytes: seq<byte>, h: Header, head: seq<byte>, types: seq<byte>, strs: seq<byte>)
    requires |bytes| == HEADER_SIZE + h.strOff + h.strLen && Printable(h)
    requires |head| == HEADER_SIZE && bytes[..HEADER_SIZE] == head
    requires |types| == h.typeLen && |strs| == h.strLen
    ensures bytes == head + Zeros(h.typeOff) + types + Zeros(h.strOff - h.typeOff - h.typeLen) + strs <==>
            GapsZero(h, bytes) && strs == StringBytes(h, bytes) && types == TypeBytes(h, bytes)
  {
    FiveParts(bytes, head, Zeros(h.typeOff), types, Zeros(h.strOff - h.typeOff - h.typeLen), strs);
  }

  lemma FiveParts(x: seq<byte>, a: seq<byte>, b: seq<byte>, c: seq<byte>, d: seq<byte>, e: seq<byte>)
    requires |x| == |a| + |b| + |c| + |d| + |e|
    ensures var i, j, k, l := |a|, |a| + |b|, |a| + |b| + |c|, |a| + |b| + |c| + |d|;
            x == a + b + c + d + e <==> x[..i] == a && x[i..j] == b && x[j..k] == c && x[k..l] == d && x[l..] == e
  {
    var i, j, k, l := |a|, |a| + |b|, |a| + |b| + |c|, |a| + |b| + |c| + |d|;
    assert x == x[..i] + x[i..j] + x[j..k] + x[k..l] + x[l..];
    var y := a + b + c + d + e;
    assert y[..i] == a && y[i..j] == b && y[j..k] == c && y[k..l] == d && y[l..] == e;
  }
}
