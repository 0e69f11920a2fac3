/** The format byte by byte: which bytes of a section decide what parsing makes of it. */
module BtfFormat {
  import opened Bytes
  import opened BtfTypes
  import opened BtfNames
  import opened BtfParse

  // ---------- numbers in the bytes ----------

  /** The 32-bit number at offset `at`: its lowest byte comes first. */
  function Word(b: seq<byte>, at: nat): (x: u32)
    requires at + 4 <= |b|
  {
    var b0: int, b1: int, b2: int, b3: int := b[at], b[at + 1], b[at + 2], b[at + 3];
    b0 + 0x100 * (b1 + 0x100 * (b2 + 0x100 * b3))
  }

  lemma {:induction false} DecWordsAt(b: seq<byte>, k: nat)
    requires |b| % 4 == 0 && 4 * k + 4 <= |b|
    ensures DecWords(b)[k] == Word(b, 4 * k)
  {
    if k > 0 {
      DecWordsAt(b[4..], k - 1);
    }
  }

  lemma DecWordsSlice(b: seq<byte>, from: nat, to: nat, k: nat)
    requires from <= to <= |b| && (to - from) % 4 == 0 && from + 4 * k + 4 <= to
    ensures DecWords(b[from..to])[k] == Word(b, from + 4 * k)
  {
    hide DecWords;
    DecWordsAt(b[from..to], k);
  }

  // ---------- one record ----------

  // The kind is in the low five bits of byte 7, the number of rows in bytes 4 and 5.
  function KindByte(enc: seq<byte>): nat
    requires |enc| >= 12
  {
    enc[7] % 32
  }

  function RowBytes(enc: seq<byte>): nat
    requires |enc| >= 12
  {
    var lo: int, hi: int := enc[4], enc[5];
    lo + 0x100 * hi
  }

  lemma CommonFromBytes(enc: seq<byte>)
    requires |enc| >= 12
    ensures CommonAt(enc) == Common(Word(enc, 0), Word(enc, 4), Word(enc, 8))
    ensures CommonAt(enc).Kind() == KindByte(enc) && CommonAt(enc).Vlen() == RowBytes(enc)
  {
    DecWordsSlice(enc, 0, 12, 0);
    DecWordsSlice(enc, 0, 12, 1);
    DecWordsSlice(enc, 0, 12, 2);
    hide DecWords;
    InfoWord(enc[4], enc[5], enc[6], enc[7]);
  }

  lemma InfoWord(b0: int, b1: int, b2: int, b3: int)
    requires 0 <= b0 < 0x100 && 0 <= b1 < 0x100 && 0 <= b2 < 0x100 && 0 <= b3 < 0x100
    ensures var x := b0 + 0x100 * (b1 + 0x100 * (b2 + 0x100 * b3));
            x / 0x100_0000 == b3 && x % 0x1_0000 == b0 + 0x100 * b1
  {
    var x := b0 + 0x100 * (b1 + 0x100 * (b2 + 0x100 * b3));
    assert x == 0x100_0000 * b3 + (b0 + 0x100 * b1 + 0x1_0000 * b2);
    assert x == 0x1_0000 * (b2 + 0x100 * b3) + (b0 + 0x100 * b1);
  }

  /** Bytes after the first twelve, by kind and number of rows. */
  function PayloadSize(kind: nat, rows: nat): (n: nat) {
    if kind in {4, 5, 15} then 12 * rows
    else if kind in {6, 13} then 8 * rows
    else if kind == 3 then 12
    else if kind in {1, 14} then 4
    else 0
  }

  /** The kinds by their numbers in the kernel's BTF documentation. */
  predicate HasKind(t: BtfType, kind: nat) {
    match kind
    case 1 => t.Integer?
    case 2 => t.Pointer?
    case 3 => t.Array?
    case 4 => t.Structure?
    case 5 => t.Union?
    case 6 => t.Enumeration?
    case 7 => t.Forward?
    case 8 => t.TypeDef?
    case 9 => t.Volatile?
    case 10 => t.Constant?
    case 11 => t.Restrict?
    case 12 => t.Function?
    case 13 => t.FunctionProtocol?
    case 14 => t.Variable?
    case 15 => t.DataSection?
    case 16 => t.FloatingPoint?
    case _ => false
  }

  lemma DecodableExactly(enc: seq<byte>)
    ensures Decodable(enc) <==>
            |enc| >= 12 && 1 <= KindByte(enc) <= 16 && 12 + PayloadSize(KindByte(enc), RowBytes(enc)) <= |enc|
  {
    if |enc| >= 12 {
      CommonFromBytes(enc);
    }
  }

  /** The record read from the bytes has the kind, the length, the number of rows and the three common
      words that stand in them. */
  lemma RecordFromBytes(enc: seq<byte>)
    requires Decodable(enc)
    ensures var t := DecodeType(enc);
            && HasKind(t, KindByte(enc)) && KindOf(t) == KindByte(enc) && Rows(t) == RowBytes(enc)
            && ByteLen(t) == 12 + PayloadSize(KindByte(enc), RowBytes(enc)) <= |enc|
            && t.c == Common(Word(enc, 0), Word(enc, 4), Word(enc, 8))
  {
    hide DecWords, ReadMembers, ReadSecinfos, ReadEnums, ReadParams, Word;
    CommonFromBytes(enc);
    DecodableExactly(enc);
  }

  /** And its payload is the words that follow, row by row and field by field. */
  lemma RowsFromBytes(enc: seq<byte>)
    requires Decodable(enc)
    ensures 12 + PayloadSize(KindByte(enc), RowBytes(enc)) <= |enc|
    ensures match DecodeType(enc)
            case Integer(_, e) => e == Word(enc, 12)
            case Variable(_, l) => l == Word(enc, 12)
            case Array(_, a) => a == ArrayInfo(Word(enc, 12), Word(enc, 16), Word(enc, 20))
            case Structure(_, ms) => MembersAt(enc, ms)
            case Union(_, ms) => MembersAt(enc, ms)
            case Enumeration(_, vs) =>
              |vs| == RowBytes(enc) && 12 + 8 * |vs| <= |enc| &&
              forall k :: 0 <= k < |vs| ==> vs[k] == EnumValue(Word(enc, 12 + 8 * k), Word(enc, 16 + 8 * k))
            case FunctionProtocol(_, ps) =>
              |ps| == RowBytes(enc) && 12 + 8 * |ps| <= |enc| &&
              forall k :: 0 <= k < |ps| ==> ps[k] == Param(Word(enc, 12 + 8 * k), Word(enc, 16 + 8 * k))
            case DataSection(_, vs) =>
              |vs| == RowBytes(enc) && 12 + 12 * |vs| <= |enc| &&
              forall k :: 0 <= k < |vs| ==>
                vs[k] == VarSecinfo(Word(enc, 12 + 12 * k), Word(enc, 16 + 12 * k), Word(enc, 20 + 12 * k))
            case _ => true
  {
    hide DecWords, Word;
    RecordFromBytes(enc);
    var t := DecodeType(enc);
    var ws := DecWords(enc[12..ByteLen(t)]);
    forall k | 0 <= k < |ws| ensures ws[k] == Word(enc, 12 + 4 * k) {
      DecWordsSlice(enc, 12, ByteLen(t), k);
    }
  }

  predicate MembersAt(enc: seq<byte>, ms: seq<Member>)
    requires |enc| >= 12
  {
    |ms| == RowBytes(enc) && 12 + 12 * |ms| <= |enc| &&
    forall k :: 0 <= k < |ms| ==>
      ms[k] == Member(Word(enc, 12 + 12 * k), Word(enc, 16 + 12 * k), Word(enc, 20 + 12 * k))
  }

  // ---------- names ----------

  /** By kind number: type definitions, forward declarations, functions, variables and data sections
      must have a name; pointers, arrays, qualifiers and prototypes lose theirs; the names of variables
      and data sections may be dotted. */
  lemma NamingByKind(t: BtfType)
    ensures NamingOf(t).Required? <==> KindOf(t) in {7, 8, 12, 14, 15}
    ensures NamingOf(t).Erased? <==> KindOf(t) in {2, 3, 9, 10, 11, 13}
    ensures !NamingOf(t).Erased? ==> (NamingOf(t).rule == DottedName <==> KindOf(t) in {14, 15})
  {
  }

  // Some member name starts inside the table and never ends.
  predicate MemberNameRunsOut(enc: seq<byte>, s: seq<byte>)
    requires |enc| >= 12 && 12 + PayloadSize(KindByte(enc), RowBytes(enc)) <= |enc|
  {
    KindByte(enc) in {4, 5} &&
    exists k :: 0 <= k < RowBytes(enc) && RunsOut(s, Word(enc, 12 + 12 * k))
  }

  predicate RunsOut(s: seq<byte>, off: nat) {
    off < |s| && forall p :: off <= p < |s| ==> s[p] != 0
  }

  /** Why a record cannot be read, if it cannot. */
  function RecordError(enc: seq<byte>, s: seq<byte>): (e: Option<Error>) {
    if |enc| < 12 then Some(Fault)
    else if Word(enc, 0) >= |s| then Some(NameOutOfRange)
    else if RunsOut(s, Word(enc, 0)) || KindByte(enc) > 16 then Some(Fault)
    else if KindByte(enc) == 0 then Some(UnknownKind)
    else if 12 + PayloadSize(KindByte(enc), RowBytes(enc)) > |enc| then Some(Fault)
    else if MemberNameRunsOut(enc, s) then Some(Fault)
    else if KindByte(enc) in {7, 8, 12, 14, 15} && Word(enc, 0) == 0 then Some(MissingName)
    else None
  }

  lemma RunsOutExactly(s: seq<byte>, off: nat)
    ensures off < |s| ==> (RunsOut(s, off) <==> !Terminated(s, off))
  {
  }

  lemma MemberNamesFromBytes(enc: seq<byte>, s: seq<byte>)
    requires Decodable(enc)
    ensures 12 + PayloadSize(KindByte(enc), RowBytes(enc)) <= |enc|
    ensures MemberNamesReadable(DecodeType(enc), s) <==> !MemberNameRunsOut(enc, s)
  {
    hide DecodeType, RunsOut, Terminated, Word;
    DecodableExactly(enc);
    RecordFromBytes(enc);
    RowsFromBytes(enc);
    var t := DecodeType(enc);
    if t.Structure? || t.Union? {
      var ms := t.members;
      forall k | 0 <= k < |ms|
        ensures ms[k].nameOff == Word(enc, 12 + 12 * k)
        ensures RunsOut(s, ms[k].nameOff) <==> ms[k].nameOff < |s| && !Terminated(s, ms[k].nameOff)
      {
        RunsOutExactly(s, ms[k].nameOff);
        OutOfTable(s, ms[k].nameOff);
      }
      if MemberNameRunsOut(enc, s) {
        var k :| 0 <= k < RowBytes(enc) && RunsOut(s, Word(enc, 12 + 12 * k));
        assert ms[k] in ms;
      } else {
        forall m | m in ms && m.nameOff < |s| ensures Terminated(s, m.nameOff) {
          var k :| 0 <= k < |ms| && ms[k] == m;
          assert !RunsOut(s, Word(enc, 12 + 12 * k));
        }
      }
    }
  }

  lemma OutOfTable(s: seq<byte>, off: nat)
    ensures RunsOut(s, off) ==> off < |s|
  {
  }

  /** Every record, from its bytes: the error, or the record with its kind, payload and name offset,
      and what its name does to the table. */
  lemma ParseTypeExact(enc: seq<byte>, s: seq<byte>)
    ensures match RecordError(enc, s)
            case Some(e) => ParseType(enc, s) == Err(e)
            case None =>
              ParseType(enc, s).Ok? && Decodable(enc) && |enc| >= 12 && Terminated(s, Word(enc, 0)) &&
              var (t, s') := ParseType(enc, s).value;
              var kind, off := KindByte(enc), Word(enc, 0);
              var erased := kind in {2, 3, 9, 10, 11, 13};
              && HasKind(t, kind) && PayloadWords(t) == PayloadWords(DecodeType(enc))
              && t.c == Common(if erased then 0 else off, Word(enc, 4), Word(enc, 8))
              && s' == if erased || off == 0 then s
                       else FixAt(if kind in {14, 15} then DottedName else Identifier, s, off)
  {
    hide DecodeType, RunsOut, Terminated, MemberNamesReadable, Word, PayloadWords, FixAt;
    if |enc| >= 12 {
      CommonFromBytes(enc);
      RunsOutExactly(s, Word(enc, 0));
      DecodableExactly(enc);
      if Decodable(enc) {
        RecordFromBytes(enc);
        MemberNamesFromBytes(enc, s);
        NamingByKind(DecodeType(enc));
        ErasedRecord(DecodeType(enc));
      }
    }
  }

  lemma ErasedRecord(t: BtfType)
    ensures EraseName(t).c == Common(if KindOf(t) in {2, 3, 9, 10, 11, 13} then 0 else t.c.nameOff, t.c.info, t.c.typ)
    ensures PayloadWords(EraseName(t)) == PayloadWords(t)
    ensures HasKind(t, KindOf(t)) && HasKind(EraseName(t), KindOf(t))
  {
  }

  /** The first record that cannot be read decides the error of the section. */
  lemma {:induction false} FirstErrorDecides(ts: seq<BtfType>, enc: seq<byte>, s: seq<byte>)
    requires (forall t :: t in ts ==> Consistent(t) && Named(t, s)) && enc != []
    requires ParseType(enc, FixNames(ts, s)).Err?
    ensures ParseTypes(EncodeAll(ts) + enc, s) == Err(ParseType(enc, FixNames(ts, s)).error)
    decreases |ts|
  {
    hide *;
    if ts == [] {
      NothingBefore(enc, s);
    } else {
      var t, rest := ts[0], ts[1..];
      FixNamesStep(ts, s);
      NamedClean(t, s);
      ParseTypesCons(t, EncodeAll(rest) + enc, s);
      FirstErrorDecides(rest, enc, FixName(t, s));
      EncodeAllCons(t, rest);
      assert ts == [t] + rest;
      assert EncodeAll(ts) + enc == Encode(t) + (EncodeAll(rest) + enc);
    }
  }

  lemma NothingBefore(enc: seq<byte>, s: seq<byte>)
    requires enc != []
    ensures FixNames([], s) == s && EncodeAll([]) + enc == enc
    ensures ParseType(enc, s).Err? ==> ParseTypes(enc, s) == Err(ParseType(enc, s).error)
  {
    hide ParseType;
  }

  lemma ParseTypesCons(t: BtfType, enc: seq<byte>, s: seq<byte>)
    requires Consistent(t) && Readable(t, s)
    ensures match ParseTypes(enc, FixName(t, s))
            case Err(e) => ParseTypes(Encode(t) + enc, s) == Err(e)
            case Ok((ts, s')) => ParseTypes(Encode(t) + enc, s) == Ok(([EraseName(t)] + ts, s'))
  {
    hide ParseType, Encode, Consistent, FixName, ByteLen, Readable, EraseName;
    AcceptType(t, s, enc);
    EncodePositive(t);
    var all := Encode(t) + enc;
    assert all[ByteLen(t)..] == enc;
  }

  // ---------- the header ----------

  lemma HeaderFromBytes(bytes: seq<byte>)
    requires |bytes| >= 24
    ensures var h := HeaderOf(bytes);
            && (h.magic == 0xEB9F <==> bytes[0] == 0x9F && bytes[1] == 0xEB)
            && h.version == bytes[2] && h.flags == bytes[3]
            && h.hdrLen == Word(bytes, 4) && h.typeOff == Word(bytes, 8) && h.typeLen == Word(bytes, 12)
            && h.strOff == Word(bytes, 16) && h.strLen == Word(bytes, 20)
  {
    var b := bytes[..24];
    assert b[4..] == bytes[4..24];
    DecWordsSlice(bytes, 4, 24, 0);
    DecWordsSlice(bytes, 4, 24, 1);
    DecWordsSlice(bytes, 4, 24, 2);
    DecWordsSlice(bytes, 4, 24, 3);
    DecWordsSlice(bytes, 4, 24, 4);
  }

  /** Why the header of a section is refused, if it is. */
  function HeaderError(bytes: seq<byte>): (e: Option<Error>) {
    if |bytes| < 24 then Some(TooSmall)
    else if bytes[..2] != [0x9F, 0xEB] then Some(BadMagic)
    else if bytes[2] != 1 then Some(BadVersion)
    else
      var strings, types := Word(bytes, 4) + Word(bytes, 16), Word(bytes, 4) + Word(bytes, 8);
      if strings + Word(bytes, 20) >= 0x1_0000_0000 then Some(Fault)
      else if strings + Word(bytes, 20) != |bytes| then Some(BadLength)
      else if types + Word(bytes, 12) > |bytes| then Some(Fault)
      else None
  }

  /** A section, from its bytes: the error of its header, the error of its types, or its contents. */
  lemma ParseRawExact(bytes: seq<byte>)
    ensures match HeaderError(bytes)
            case Some(e) => ParseRaw(bytes) == Err(e)
            case None =>
              var strings, types := Word(bytes, 4) + Word(bytes, 16), Word(bytes, 4) + Word(bytes, 8);
              && HeaderOf(bytes).hdrLen == Word(bytes, 4)
              && match ParseTypes(bytes[types..types + Word(bytes, 12)], bytes[strings..])
                 case Err(e) => ParseRaw(bytes) == Err(e)
                 case Ok((ts, s)) => ParseRaw(bytes) == Ok(Section(HeaderOf(bytes), ts, s))
  {
    hide HeaderOf, Word, ParseTypes;
    if |bytes| >= 24 {
      HeaderFromBytes(bytes);
      assert bytes[..2] == [bytes[0], bytes[1]];
    }
  }
}
