/** The parser and printer as the source runs them: a cursor over the type bytes, a string table
    fixed in place, and a growing output buffer. */
module BtfReader {
  import opened Bytes
  import opened BtfTypes
  import opened BtfNames
  import opened BtfParse

  /** BtfType::parse, fixing the name in the table it is given. */
  method ReadType(enc: seq<byte>, table: array<byte>) returns (r: Result<BtfType>)
    modifies table
    ensures match ParseType(enc, old(table[..]))
            case Err(e) => r == Err(e)
            case Ok((t, s)) => r == Ok(t) && table[..] == s
  {
    if |enc| < 12 { return Err(Fault); }
    var c := CommonAt(enc);
    if c.nameOff >= table.Length { return Err(NameOutOfRange); }
    var s := table[..];
    if !Terminated(s, c.nameOff) || c.Kind() > MAX_KIND { return Err(Fault); }
    if c.Kind() == 0 { return Err(UnknownKind); }
    if !Decodable(enc) { return Err(Fault); }
    var t := DecodeType(enc);
    if !MemberNamesReadable(t, s) { return Err(Fault); }
    if NamingOf(t).Required? && c.nameOff == 0 { return Err(MissingName); }
    FixNameInTable(t, table);
    return Ok(EraseName(t));
  }

  /** The part of BtfType::parse that rewrites an invalid name; a valid one is not written. */
  method FixNameInTable(t: BtfType, table: array<byte>)
    requires Terminated(table[..], t.c.nameOff)
    modifies table
    ensures table[..] == FixName(t, old(table[..]))
  {
    var naming, off := NamingOf(t), t.c.nameOff;
    if !naming.Erased? && off != 0 {
      var s := table[..];
      var name := CStr(s, off);
      var fixed := Fixed(naming.rule, name, true);
      FixedShape(naming.rule, name, true);
      if fixed != name {
        FixNameStrSection(fixed, off, table);
      } else {
        OverwriteSame(s, off, name);
      }
    }
  }

  // The outcome of a parse whose first records are already known.
  ghost function After(done: seq<BtfType>, r: Result<(seq<BtfType>, seq<byte>)>): Result<(seq<BtfType>, seq<byte>)> {
    match r
    case Err(e) => Err(e)
    case Ok((ts, s)) => Ok((done + ts, s))
  }

  /** BTF::parse_types: records are numbered from 1 in the order they are read. */
  method ReadTypes(enc: seq<byte>, table: array<byte>) returns (r: Result<seq<(int, BtfType)>>)
    modifies table
    ensures match ParseTypes(enc, old(table[..]))
            case Err(e) => r == Err(e)
            case Ok((ts, s)) => r.Ok? && r.value == Number(ts) && table[..] == s
  {
    hide ParseType;
    var types := [];
    var typeId := 1;
    var remain := enc;
    ghost var done: seq<BtfType> := [];
    AfterNone(ParseTypes(enc, table[..]));
    while remain != []
      invariant types == Number(done) && typeId == |done| + 1
      invariant ParseTypes(enc, old(table[..])) == After(done, ParseTypes(remain, table[..]))
      decreases |remain|
    {
      ghost var s := table[..];
      var one := ReadType(remain, table);
      if one.Err? { return Err(one.error); }
      var t := one.value;
      var size := ByteLen(t);
      ParseTypeOk(remain, s);
      types := types + [(typeId, t)];
      typeId := typeId + 1;
      AfterStep(done, remain, s);
      done := done + [t];
      remain := remain[size..];
    }
    return Ok(types);
  }

  lemma AfterNone(r: Result<(seq<BtfType>, seq<byte>)>)
    ensures After([], r) == r
  {
    if r.Ok? {
      assert [] + r.value.0 == r.value.0;
    }
  }

  lemma AfterStep(done: seq<BtfType>, remain: seq<byte>, s: seq<byte>)
    requires remain != [] && ParseType(remain, s).Ok? && ByteLen(ParseType(remain, s).value.0) <= |remain|
    ensures var (t, s1) := ParseType(remain, s).value;
            After(done, ParseTypes(remain, s)) == After(done + [t], ParseTypes(remain[ByteLen(t)..], s1))
  {
    hide ParseType, ByteLen;
    var (t, s1) := ParseType(remain, s).value;
    var rest := ParseTypes(remain[ByteLen(t)..], s1);
    if rest.Ok? {
      assert done + ([t] + rest.value.0) == done + [t] + rest.value.0;
    }
  }

  /** Types paired with their ids: the type at position i has id i + 1. */
  function Number(ts: seq<BtfType>): (r: seq<(int, BtfType)>)
    ensures |r| == |ts|
  {
    seq(|ts|, i requires 0 <= i < |ts| => (i + 1, ts[i]))
  }

  lemma NumberSnoc(ts: seq<BtfType>, t: BtfType)
    ensures Number(ts + [t]) == Number(ts) + [(|ts| + 1, t)]
  {
  }

  method PushZeros(raw0: seq<byte>, n: nat) returns (raw: seq<byte>)
    ensures raw == raw0 + Zeros(n)
  {
    raw := raw0;
    for i := 0 to n
      invariant raw == raw0 + Zeros(i)
    {
      raw := raw + [0];
    }
  }

  lemma PushStep(raw: seq<byte>, ts: seq<BtfType>, j: nat)
    requires j < |ts|
    ensures raw + EncodeAll(ts[..j]) + Encode(ts[j]) == raw + EncodeAll(ts[..j + 1])
  {
    hide Encode;
    var a, b := EncodeAll(ts[..j]), Encode(ts[j]);
    assert ts[..j + 1] == ts[..j] + [ts[j]];
    EncodeAllSnoc(ts[..j], ts[j]);
    assert raw + a + b == raw + (a + b);
  }

  method PushTypes(raw0: seq<byte>, types: seq<(int, BtfType)>, ghost ts: seq<BtfType>) returns (raw: seq<byte>)
    requires types == Number(ts)
    ensures raw == raw0 + EncodeAll(ts)
  {
    raw := raw0;
    for j := 0 to |types|
      invariant raw == raw0 + EncodeAll(ts[..j])
    {
      raw := raw + Encode(types[j].1);
      PushStep(raw0, ts, j);
    }
    assert ts[..|ts|] == ts;
  }

  /** BTF::dump. */
  method WriteSection(hdr: Header, types: seq<(int, BtfType)>, strs: seq<byte>, ghost ts: seq<BtfType>)
    returns (r: Result<seq<byte>>)
    requires types == Number(ts)
    ensures r == Dump(Section(hdr, ts, strs))
  {
    var raw := PushZeros(EncHeader(hdr), hdr.typeOff);
    raw := PushTypes(raw, types, ts);
    if hdr.typeOff + hdr.typeLen >= U32_LIMIT { return Err(Fault); }
    if |raw| != HEADER_SIZE + hdr.typeOff + hdr.typeLen { return Err(TypeLengthMismatch); }
    if HEADER_SIZE + hdr.strOff < |raw| { return Err(BadStringOffset); }
    raw := PushZeros(raw, HEADER_SIZE + hdr.strOff - |raw|);
    raw := raw + strs;
    if hdr.strOff + hdr.strLen >= U32_LIMIT { return Err(Fault); }
    if HEADER_SIZE + hdr.strOff + hdr.strLen != |raw| { return Err(StringLengthMismatch); }
    return Ok(raw);
  }
}
