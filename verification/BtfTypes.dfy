/** The BTF type records: their data, their size, their words, and the type ids they refer to. */
module BtfTypes {
  import opened Bytes

  // struct btf_type: `typ` is the union of a size and a type id.
  datatype Common = Common(nameOff: u32, info: u32, typ: u32) {
    function Kind(): nat {
      info / 0x100_0000 % 32
    }

    function Vlen(): nat {
      info % 0x1_0000
    }
  }

  datatype ArrayInfo = ArrayInfo(typ: u32, indexType: u32, nelems: u32)
  datatype Member = Member(nameOff: u32, typ: u32, offset: u32)
  datatype EnumValue = EnumValue(nameOff: u32, val: u32)  // val: the bits of an i32
  datatype Param = Param(nameOff: u32, typ: u32)
  datatype VarSecinfo = VarSecinfo(typ: u32, offset: u32, size: u32)

  datatype BtfType =
    | Integer(c: Common, encoding: u32)
    | Pointer(c: Common)
    | Array(c: Common, arr: ArrayInfo)
    | Structure(c: Common, members: seq<Member>)
    | Union(c: Common, members: seq<Member>)
    | Enumeration(c: Common, values: seq<EnumValue>)
    | Forward(c: Common)
    | TypeDef(c: Common)
    | Volatile(c: Common)
    | Constant(c: Common)
    | Restrict(c: Common)
    | Function(c: Common)
    | FunctionProtocol(c: Common, params: seq<Param>)
    | Variable(c: Common, linkage: u32)
    | DataSection(c: Common, vars: seq<VarSecinfo>)
    | FloatingPoint(c: Common)

  const MAX_KIND := 16

  function KindOf(t: BtfType): nat {
    match t
    case Integer(_, _) => 1
    case Pointer(_) => 2
    case Array(_, _) => 3
    case Structure(_, _) => 4
    case Union(_, _) => 5
    case Enumeration(_, _) => 6
    case Forward(_) => 7
    case TypeDef(_) => 8
    case Volatile(_) => 9
    case Constant(_) => 10
    case Restrict(_) => 11
    case Function(_) => 12
    case FunctionProtocol(_, _) => 13
    case Variable(_, _) => 14
    case DataSection(_, _) => 15
    case FloatingPoint(_) => 16
  }

  // Number of payload rows a record holds, for the kinds that carry vlen rows.
  function Rows(t: BtfType): nat {
    match t
    case Structure(_, ms) => |ms|
    case Union(_, ms) => |ms|
    case Enumeration(_, vs) => |vs|
    case FunctionProtocol(_, ps) => |ps|
    case DataSection(_, vs) => |vs|
    case _ => t.c.Vlen()
  }

  /** A record is consistent when its info word names its own kind and counts its own rows. */
  predicate Consistent(t: BtfType) {
    t.c.Kind() == KindOf(t) && t.c.Vlen() == Rows(t)
  }

  // Payload words that follow the three words of btf_type.
  function ExtraWords(kind: nat, vlen: nat): nat {
    if kind == 1 || kind == 14 then 1
    else if kind == 3 then 3
    else if kind == 4 || kind == 5 || kind == 15 then 3 * vlen
    else if kind == 6 || kind == 13 then 2 * vlen
    else 0
  }

  /** Size in bytes of a record, computed from the info word as the source does. */
  function ByteLen(t: BtfType): nat {
    12 + 4 * ExtraWords(KindOf(t), t.c.Vlen())
  }

  function CommonWords(c: Common): seq<u32> {
    [c.nameOff, c.info, c.typ]
  }

  function MemberWords(ms: seq<Member>): (ws: seq<u32>)
    ensures |ws| == 3 * |ms|
  {
    seq(3 * |ms|, k requires 0 <= k < 3 * |ms| =>
      var m := ms[k / 3]; if k % 3 == 0 then m.nameOff else if k % 3 == 1 then m.typ else m.offset)
  }

  function SecinfoWords(vs: seq<VarSecinfo>): (ws: seq<u32>)
    ensures |ws| == 3 * |vs|
  {
    seq(3 * |vs|, k requires 0 <= k < 3 * |vs| =>
      var v := vs[k / 3]; if k % 3 == 0 then v.typ else if k % 3 == 1 then v.offset else v.size)
  }

  function EnumWords(vs: seq<EnumValue>): (ws: seq<u32>)
    ensures |ws| == 2 * |vs|
  {
    seq(2 * |vs|, k requires 0 <= k < 2 * |vs| =>
      if k % 2 == 0 then vs[k / 2].nameOff else vs[k / 2].val)
  }

  function ParamWords(ps: seq<Param>): (ws: seq<u32>)
    ensures |ws| == 2 * |ps|
  {
    seq(2 * |ps|, k requires 0 <= k < 2 * |ps| =>
      if k % 2 == 0 then ps[k / 2].nameOff else ps[k / 2].typ)
  }

  function PayloadWords(t: BtfType): (ws: seq<u32>) {
    match t
    case Integer(_, e) => [e]
    case Array(_, a) => [a.typ, a.indexType, a.nelems]
    case Structure(_, ms) => MemberWords(ms)
    case Union(_, ms) => MemberWords(ms)
    case Enumeration(_, vs) => EnumWords(vs)
    case FunctionProtocol(_, ps) => ParamWords(ps)
    case Variable(_, l) => [l]
    case DataSection(_, vs) => SecinfoWords(vs)
    case _ => []
  }

  function Words(t: BtfType): (ws: seq<u32>) {
    CommonWords(t.c) + PayloadWords(t)
  }

  /** The bytes `BtfType::dump` writes. */
  function Encode(t: BtfType): (b: seq<byte>) {
    EncWords(Words(t))
  }

  lemma EncodeLength(t: BtfType)
    requires Consistent(t)
    ensures |Encode(t)| == ByteLen(t)
  {
  }

  function ReadMembers(ws: seq<u32>, n: nat): (ms: seq<Member>)
    requires |ws| == 3 * n
    ensures |ms| == n
  {
    seq(n, i requires 0 <= i < n => Member(ws[3 * i], ws[3 * i + 1], ws[3 * i + 2]))
  }

  function ReadSecinfos(ws: seq<u32>, n: nat): (vs: seq<VarSecinfo>)
    requires |ws| == 3 * n
    ensures |vs| == n
  {
    seq(n, i requires 0 <= i < n => VarSecinfo(ws[3 * i], ws[3 * i + 1], ws[3 * i + 2]))
  }

  function ReadEnums(ws: seq<u32>, n: nat): (vs: seq<EnumValue>)
    requires |ws| == 2 * n
    ensures |vs| == n
  {
    seq(n, i requires 0 <= i < n => EnumValue(ws[2 * i], ws[2 * i + 1]))
  }

  function ReadParams(ws: seq<u32>, n: nat): (ps: seq<Param>)
    requires |ws| == 2 * n
    ensures |ps| == n
  {
    seq(n, i requires 0 <= i < n => Param(ws[2 * i], ws[2 * i + 1]))
  }

  /** Builds the record of kind `c.Kind()` from its payload words. */
  function FromWords(c: Common, ws: seq<u32>): (t: BtfType)
    requires 1 <= c.Kind() <= MAX_KIND
    requires |ws| == ExtraWords(c.Kind(), c.Vlen())
    ensures Consistent(t) && t.c == c
  {
    var n := c.Vlen();
    match c.Kind()
    case 1 => Integer(c, ws[0])
    case 2 => Pointer(c)
    case 3 => Array(c, ArrayInfo(ws[0], ws[1], ws[2]))
    case 4 => Structure(c, ReadMembers(ws, n))
    case 5 => Union(c, ReadMembers(ws, n))
    case 6 => Enumeration(c, ReadEnums(ws, n))
    case 7 => Forward(c)
    case 8 => TypeDef(c)
    case 9 => Volatile(c)
    case 10 => Constant(c)
    case 11 => Restrict(c)
    case 12 => Function(c)
    case 13 => FunctionProtocol(c, ReadParams(ws, n))
    case 14 => Variable(c, ws[0])
    case 15 => DataSection(c, ReadSecinfos(ws, n))
    case _ => FloatingPoint(c)
  }

  lemma PayloadOfFromWords(c: Common, ws: seq<u32>)
    requires 1 <= c.Kind() <= MAX_KIND
    requires |ws| == ExtraWords(c.Kind(), c.Vlen())
    ensures PayloadWords(FromWords(c, ws)) == ws
  {
    var k, n := c.Kind(), c.Vlen();
    if k == 4 || k == 5 {
      assert MemberWords(ReadMembers(ws, n)) == ws;
    } else if k == 6 {
      assert EnumWords(ReadEnums(ws, n)) == ws;
    } else if k == 13 {
      assert ParamWords(ReadParams(ws, n)) == ws;
    } else if k == 15 {
      assert SecinfoWords(ReadSecinfos(ws, n)) == ws;
    }
  }

  lemma DivMod3(i: nat)
    ensures 3 * i / 3 == i && 3 * i % 3 == 0
    ensures (3 * i + 1) / 3 == i && (3 * i + 1) % 3 == 1
    ensures (3 * i + 2) / 3 == i && (3 * i + 2) % 3 == 2
  {
  }

  lemma DivMod2(i: nat)
    ensures 2 * i / 2 == i && 2 * i % 2 == 0
    ensures (2 * i + 1) / 2 == i && (2 * i + 1) % 2 == 1
  {
  }

  lemma MembersRoundTrip(ms: seq<Member>)
    ensures ReadMembers(MemberWords(ms), |ms|) == ms
  {
    forall i | 0 <= i < |ms|
      ensures ReadMembers(MemberWords(ms), |ms|)[i] == ms[i]
    {
      DivMod3(i);
    }
  }

  lemma SecinfosRoundTrip(vs: seq<VarSecinfo>)
    ensures ReadSecinfos(SecinfoWords(vs), |vs|) == vs
  {
    forall i | 0 <= i < |vs|
      ensures ReadSecinfos(SecinfoWords(vs), |vs|)[i] == vs[i]
    {
      DivMod3(i);
    }
  }

  lemma PairsRoundTrip(es: seq<EnumValue>, ps: seq<Param>)
    ensures ReadEnums(EnumWords(es), |es|) == es
    ensures ReadParams(ParamWords(ps), |ps|) == ps
  {
    forall i | 0 <= i < |es|
      ensures ReadEnums(EnumWords(es), |es|)[i] == es[i]
    {
      DivMod2(i);
    }
    forall i | 0 <= i < |ps|
      ensures ReadParams(ParamWords(ps), |ps|)[i] == ps[i]
    {
      DivMod2(i);
    }
  }

  lemma FromWordsOfPayload(t: BtfType)
    requires Consistent(t)
    ensures |PayloadWords(t)| == ExtraWords(t.c.Kind(), t.c.Vlen())
    ensures FromWords(t.c, PayloadWords(t)) == t
  {
    match t
    case Structure(_, ms) => MembersRoundTrip(ms);
    case Union(_, ms) => MembersRoundTrip(ms);
    case Enumeration(_, es) => PairsRoundTrip(es, []);
    case FunctionProtocol(_, ps) => PairsRoundTrip([], ps);
    case DataSection(_, vs) => SecinfosRoundTrip(vs);
    case _ =>
  }

  // ---------- references between types ----------

  function MemberRefs(ms: seq<Member>): (r: seq<u32>)
    ensures |r| == |ms|
  {
    seq(|ms|, i requires 0 <= i < |ms| => ms[i].typ)
  }

  function ParamRefs(ps: seq<Param>): (r: seq<u32>)
    ensures |r| == |ps|
  {
    seq(|ps|, i requires 0 <= i < |ps| => ps[i].typ)
  }

  function SecinfoRefs(vs: seq<VarSecinfo>): (r: seq<u32>)
    ensures |r| == |vs|
  {
    seq(|vs|, i requires 0 <= i < |vs| => vs[i].typ)
  }

  /** The type ids a record refers to, in the order `filter` visits them. */
  function Refs(t: BtfType): (r: seq<u32>) {
    match t
    case Integer(_, _) => []
    case Enumeration(_, _) => []
    case FloatingPoint(_) => []
    case Structure(_, ms) => MemberRefs(ms)
    case Union(_, ms) => MemberRefs(ms)
    case FunctionProtocol(c, ps) => [c.typ] + ParamRefs(ps)
    case DataSection(_, vs) => SecinfoRefs(vs)
    case Array(_, a) => [a.typ, a.indexType]
    case _ => [t.c.typ]
  }

  function SetMembers(ms: seq<Member>, rs: seq<u32>): (ms': seq<Member>)
    requires |rs| == |ms|
    ensures |ms'| == |ms|
  {
    seq(|ms|, i requires 0 <= i < |ms| => ms[i].(typ := rs[i]))
  }

  function SetParams(ps: seq<Param>, rs: seq<u32>): (ps': seq<Param>)
    requires |rs| == |ps|
    ensures |ps'| == |ps|
  {
    seq(|ps|, i requires 0 <= i < |ps| => ps[i].(typ := rs[i]))
  }

  function SetSecinfos(vs: seq<VarSecinfo>, rs: seq<u32>): (vs': seq<VarSecinfo>)
    requires |rs| == |vs|
    ensures |vs'| == |vs|
  {
    seq(|vs|, i requires 0 <= i < |vs| => vs[i].(typ := rs[i]))
  }

  function SetTyp(c: Common, rs: seq<u32>): Common
    requires |rs| >= 1
  {
    c.(typ := rs[0])
  }

  function SetArray(a: ArrayInfo, rs: seq<u32>): ArrayInfo
    requires |rs| == 2
  {
    a.(typ := rs[0], indexType := rs[1])
  }

  /** The record with its references replaced by `rs`, everything else unchanged. */
  function WithRefs(t: BtfType, rs: seq<u32>): (t': BtfType)
    requires |rs| == |Refs(t)|
  {
    match t
    case Integer(_, _) => t
    case Enumeration(_, _) => t
    case FloatingPoint(_) => t
    case Structure(c, ms) => Structure(c, SetMembers(ms, rs))
    case Union(c, ms) => Union(c, SetMembers(ms, rs))
    case FunctionProtocol(c, ps) => FunctionProtocol(SetTyp(c, rs), SetParams(ps, rs[1..]))
    case DataSection(c, vs) => DataSection(c, SetSecinfos(vs, rs))
    case Array(c, a) => Array(c, SetArray(a, rs))
    case Pointer(c) => Pointer(SetTyp(c, rs))
    case TypeDef(c) => TypeDef(SetTyp(c, rs))
    case Volatile(c) => Volatile(SetTyp(c, rs))
    case Constant(c) => Constant(SetTyp(c, rs))
    case Restrict(c) => Restrict(SetTyp(c, rs))
    case Function(c) => Function(SetTyp(c, rs))
    case Variable(c, l) => Variable(SetTyp(c, rs), l)
    case Forward(c) => Forward(SetTyp(c, rs))
  }

  /** WithRefs is a lens on Refs: it sets exactly the references, putting back the old ones is the
      identity, and the second of two settings wins. */
  lemma RefsLens(t: BtfType, rs: seq<u32>)
    requires |rs| == |Refs(t)|
    ensures Refs(WithRefs(t, rs)) == rs
    ensures WithRefs(t, Refs(t)) == t
    ensures forall rs' :: |rs'| == |rs| ==> WithRefs(WithRefs(t, rs), rs') == WithRefs(t, rs')
  {
    assert Refs(WithRefs(t, rs)) == rs;
    assert WithRefs(t, Refs(t)) == t;
    forall rs' | |rs'| == |rs|
      ensures WithRefs(WithRefs(t, rs), rs') == WithRefs(t, rs')
    {
      assert Refs(WithRefs(t, rs)) == rs;
    }
  }

  /** The words of a record that hold a type id, by kind (section 2.2 of the kernel's BTF
      documentation): the third word of the wrapper kinds and of a function prototype, both ids of an
      array, and the type of each member, parameter and section variable. */
  predicate IsRefWord(kind: nat, k: nat) {
    || (k == 2 && (kind == 2 || 7 <= kind <= 14))
    || (kind == 3 && (k == 3 || k == 4))
    || ((kind == 4 || kind == 5) && k >= 3 && (k - 3) % 3 == 1)
    || (kind == 13 && k >= 3 && (k - 3) % 2 == 1)
    || (kind == 15 && k >= 3 && (k - 3) % 3 == 0)
  }

  predicate RefWordAt(t: BtfType, k: nat, x: u32) {
    k < |Words(t)| && IsRefWord(KindOf(t), k) && Words(t)[k] == x
  }

  /** Refs lists exactly the ids found in the reference words of the encoding. */
  lemma RefsAreRefWords(t: BtfType, x: u32)
    ensures x in Refs(t) <==> exists k: nat :: RefWordAt(t, k, x)
  {
    if x in Refs(t) {
      var k := RefWordOf(t, x);
      assert RefWordAt(t, k, x);
    }
    if k: nat :| RefWordAt(t, k, x) {
      RefOfWord(t, k);
    }
  }

  // The payload words of one row kind: word j belongs to row j / 3 or j / 2.
  lemma MemberRow(ms: seq<Member>, j: nat)
    requires j < 3 * |ms|
    ensures j % 3 == 1 ==> MemberWords(ms)[j] == MemberRefs(ms)[j / 3]
    ensures forall rs: seq<u32> :: |rs| == |ms| && j % 3 != 1 ==> MemberWords(SetMembers(ms, rs))[j] == MemberWords(ms)[j]
  {
  }

  lemma SecinfoRow(vs: seq<VarSecinfo>, j: nat)
    requires j < 3 * |vs|
    ensures j % 3 == 0 ==> SecinfoWords(vs)[j] == SecinfoRefs(vs)[j / 3]
    ensures forall rs: seq<u32> :: |rs| == |vs| && j % 3 != 0 ==> SecinfoWords(SetSecinfos(vs, rs))[j] == SecinfoWords(vs)[j]
  {
  }

  lemma ParamRow(ps: seq<Param>, j: nat)
    requires j < 2 * |ps|
    ensures j % 2 == 1 ==> ParamWords(ps)[j] == ParamRefs(ps)[j / 2]
    ensures forall rs: seq<u32> :: |rs| == |ps| && j % 2 != 1 ==> ParamWords(SetParams(ps, rs))[j] == ParamWords(ps)[j]
  {
  }

  lemma RefWordOf(t: BtfType, x: u32) returns (k: nat)
    requires x in Refs(t)
    ensures RefWordAt(t, k, x)
  {
    hide MemberWords, SecinfoWords, ParamWords, EnumWords, MemberRefs, SecinfoRefs, ParamRefs;
    if t.Structure? || t.Union? {
      k := MemberWordOf(t.members, x);
      AtPayload(t, k, x);
    } else if t.DataSection? {
      k := SecinfoWordOf(t.vars, x);
      AtPayload(t, k, x);
    } else if t.FunctionProtocol? && t.c.typ != x {
      k := ParamWordOf(t.params, x);
      AtPayload(t, k, x);
    } else if t.Array? {
      k := if t.arr.typ == x then 3 else 4;
    } else {
      k := 2;
    }
  }

  lemma AtPayload(t: BtfType, k: nat, x: u32)
    requires 3 <= k < 3 + |PayloadWords(t)| && PayloadWords(t)[k - 3] == x && IsRefWord(KindOf(t), k)
    ensures RefWordAt(t, k, x)
  {
    hide PayloadWords, IsRefWord, KindOf;
  }

  lemma SecinfoWordOf(vs: seq<VarSecinfo>, x: u32) returns (k: nat)
    requires x in SecinfoRefs(vs)
    ensures 3 <= k < 3 + 3 * |vs| && (k - 3) % 3 == 0 && SecinfoWords(vs)[k - 3] == x
  {
    hide SecinfoWords, SecinfoRefs;
    var i :| 0 <= i < |vs| && SecinfoRefs(vs)[i] == x;
    DivMod3(i);
    SecinfoRow(vs, 3 * i);
    k := 3 * i + 3;
  }

  lemma ParamWordOf(ps: seq<Param>, x: u32) returns (k: nat)
    requires x in ParamRefs(ps)
    ensures 3 <= k < 3 + 2 * |ps| && (k - 3) % 2 == 1 && ParamWords(ps)[k - 3] == x
  {
    hide ParamWords, ParamRefs;
    var i :| 0 <= i < |ps| && ParamRefs(ps)[i] == x;
    DivMod2(i);
    ParamRow(ps, 2 * i + 1);
    k := 2 * i + 4;
  }

  lemma MemberWordOf(ms: seq<Member>, x: u32) returns (k: nat)
    requires x in MemberRefs(ms)
    ensures 3 <= k < 3 + 3 * |ms| && (k - 3) % 3 == 1 && MemberWords(ms)[k - 3] == x
  {
    hide MemberWords, MemberRefs;
    var i :| 0 <= i < |ms| && MemberRefs(ms)[i] == x;
    DivMod3(i);
    MemberRow(ms, 3 * i + 1);
    k := 3 * i + 4;
  }

  lemma RefOfPayload(t: BtfType, j: nat)
    requires j < |PayloadWords(t)| && IsRefWord(KindOf(t), j + 3)
    ensures PayloadWords(t)[j] in Refs(t)
  {
    hide MemberWords, SecinfoWords, ParamWords, EnumWords, MemberRefs, SecinfoRefs, ParamRefs;
    if t.Structure? || t.Union? {
      MemberRow(t.members, j);
    } else if t.DataSection? {
      SecinfoRow(t.vars, j);
    } else if t.FunctionProtocol? {
      ParamRow(t.params, j);
      assert PayloadWords(t)[j] == Refs(t)[j / 2 + 1];
    }
  }

  lemma RefOfWord(t: BtfType, k: nat)
    requires k < |Words(t)| && IsRefWord(KindOf(t), k)
    ensures Words(t)[k] in Refs(t)
  {
    hide PayloadWords;
    if k >= 3 {
      RefOfPayload(t, k - 3);
    }
  }

  lemma CommonFrame(t: BtfType, rs: seq<u32>, k: nat)
    requires |rs| == |Refs(t)| && k < 3 && !IsRefWord(KindOf(t), k)
    ensures CommonWords(WithRefs(t, rs).c)[k] == CommonWords(t.c)[k]
  {
    hide MemberRefs, SecinfoRefs, ParamRefs, SetMembers, SetParams, SetSecinfos;
  }

  lemma PayloadFrame(t: BtfType, rs: seq<u32>, j: nat)
    requires |rs| == |Refs(t)| && j < |PayloadWords(t)| && !IsRefWord(KindOf(t), j + 3)
    ensures |PayloadWords(WithRefs(t, rs))| == |PayloadWords(t)|
    ensures PayloadWords(WithRefs(t, rs))[j] == PayloadWords(t)[j]
  {
    hide MemberWords, SecinfoWords, ParamWords, EnumWords, MemberRefs, SecinfoRefs, ParamRefs,
      SetMembers, SetParams, SetSecinfos;
    if t.Structure? || t.Union? {
      MemberRow(t.members, j);
    } else if t.DataSection? {
      SecinfoRow(t.vars, j);
    } else if t.FunctionProtocol? {
      ParamRow(t.params, j);
    }
  }

  lemma SameWordCount(t: BtfType, rs: seq<u32>)
    requires |rs| == |Refs(t)|
    ensures |PayloadWords(WithRefs(t, rs))| == |PayloadWords(t)|
  {
    hide MemberWords, SecinfoWords, ParamWords, EnumWords, MemberRefs, SecinfoRefs, ParamRefs,
      SetMembers, SetParams, SetSecinfos;
  }

  /** Rewriting the references changes no other word. */
  lemma OnlyRefWordsChange(t: BtfType, rs: seq<u32>, k: nat)
    requires |rs| == |Refs(t)| && k < |Words(t)| && !IsRefWord(KindOf(t), k)
    ensures |Words(WithRefs(t, rs))| == |Words(t)| && Words(WithRefs(t, rs))[k] == Words(t)[k]
  {
    hide PayloadWords, WithRefs, Refs, IsRefWord, KindOf;
    SameWordCount(t, rs);
    if k < 3 {
      CommonFrame(t, rs, k);
    } else {
      PayloadFrame(t, rs, k - 3);
    }
  }

  lemma WithRefsShape(t: BtfType, rs: seq<u32>)
    requires |rs| == |Refs(t)|
    ensures var t' := WithRefs(t, rs);
            KindOf(t') == KindOf(t) && t'.c.nameOff == t.c.nameOff && t'.c.info == t.c.info &&
            ByteLen(t') == ByteLen(t) && (Consistent(t) ==> Consistent(t'))
  {
  }

  function TotalLen(ts: seq<BtfType>): (n: nat) {
    if ts == [] then 0 else ByteLen(ts[0]) + TotalLen(ts[1..])
  }

  function EncodeAll(ts: seq<BtfType>): (b: seq<byte>) {
    if ts == [] then [] else Encode(ts[0]) + EncodeAll(ts[1..])
  }

  lemma EncodeAllCons(t: BtfType, ts: seq<BtfType>)
    ensures EncodeAll([t] + ts) == Encode(t) + EncodeAll(ts)
    ensures TotalLen([t] + ts) == ByteLen(t) + TotalLen(ts)
  {
    assert ([t] + ts)[1..] == ts;
  }

  lemma {:induction false} EncodeAllLength(ts: seq<BtfType>)
    requires forall t :: t in ts ==> Consistent(t)
    ensures |EncodeAll(ts)| == TotalLen(ts)
  {
    if ts != [] {
      EncodeLength(ts[0]);
      EncodeAllLength(ts[1..]);
    }
  }

  lemma {:induction false} EncodeAllSnoc(ts: seq<BtfType>, t: BtfType)
    ensures EncodeAll(ts + [t]) == EncodeAll(ts) + Encode(t)
  {
    hide Encode;
    var e := Encode(t);
    if ts == [] {
      assert EncodeAll([t]) == e + EncodeAll([t][1..]);
    } else {
      EncodeAllSnoc(ts[1..], t);
      assert (ts + [t])[1..] == ts[1..] + [t];
      var a, b := Encode(ts[0]), EncodeAll(ts[1..]);
      assert a + (b + e) == (a + b) + e;
    }
  }

  lemma {:induction false} TotalLenSnoc(ts: seq<BtfType>, t: BtfType)
    ensures TotalLen(ts + [t]) == TotalLen(ts) + ByteLen(t)
  {
    if ts == [] {
      assert TotalLen([t]) == ByteLen(t) + TotalLen([]);
    } else {
      TotalLenSnoc(ts[1..], t);
      assert (ts + [t])[1..] == ts[1..] + [t];
    }
  }
}
