/** What sanitising means in terms of characters: the two name rules written with character literals,
    and the lossy decoding measured against UTF-8 (section 3 of RFC 3629). */
module BtfChars {
  import opened Bytes
  import opened BtfNames

  // ---------- the characters of a name ----------

  predicate Between(lo: char, c: nat, hi: char) {
    lo as nat <= c <= hi as nat
  }

  /** The characters a C identifier may hold at its first or a later place, and '.' in dotted names. */
  predicate NameChar(rule: Rule, c: nat, first: bool) {
    || Between('a', c, 'z') || Between('A', c, 'Z') || c == '_' as nat
    || (Between('0', c, '9') && !first)
    || (rule == DottedName && c == '.' as nat)
  }

  function FixedChar(rule: Rule, c: nat, first: bool): (b: byte) {
    if NameChar(rule, c, first) then c else '_' as nat
  }

  lemma AllowedChar(rule: Rule, b: byte, first: bool)
    ensures Allowed(rule, b, first) <==> NameChar(rule, b, first)
  {
  }

  /** A valid name holds nothing but name characters, and no digit first. */
  lemma ValidNameChars(rule: Rule, name: seq<byte>)
    ensures ValidName(rule, name) <==> forall i :: 0 <= i < |name| ==> NameChar(rule, name[i], i == 0)
  {
    forall i | 0 <= i < |name| ensures Allowed(rule, name[i], i == 0) <==> NameChar(rule, name[i], i == 0) {
      AllowedChar(rule, name[i], i == 0);
    }
  }

  /** An ASCII name is fixed byte by byte: name characters stay, all others become '_'. */
  lemma FixedAsciiChars(rule: Rule, name: seq<byte>)
    requires AsciiOnly(name)
    ensures |Fixed(rule, name, true)| == |name|
    ensures forall i :: 0 <= i < |name| ==> Fixed(rule, name, true)[i] == FixedChar(rule, name[i], i == 0)
  {
    hide Allowed, NameChar;
    FixedAscii(rule, name, true);
    forall i | 0 <= i < |name| ensures Allowed(rule, name[i], i == 0) <==> NameChar(rule, name[i], i == 0) {
      AllowedChar(rule, name[i], i == 0);
    }
  }

  /** A string of the table is what stands between its offset and the next NUL. */
  lemma StringInTable(before: seq<byte>, name: seq<byte>, after: seq<byte>)
    requires 0 !in name
    ensures var s := before + name + [0] + after;
            Terminated(s, |before|) && CStr(s, |before|) == name
  {
    var s := before + name + [0] + after;
    assert s[|before| + |name|] == 0;
    var e := StringEnd(s, |before|);
    assert forall i :: 0 <= i < |name| ==> s[|before| + i] == name[i] && name[i] in name;
    assert e == |before| + |name|;
  }

  // ---------- UTF-8 ----------

  predicate Scalar(c: nat) {
    c < 0xD800 || 0xE000 <= c < 0x11_0000
  }

  function Utf8(c: nat): (b: seq<byte>)
    requires Scalar(c)
    ensures 1 <= |b| <= 4
  {
    if c < 0x80 then [c]
    else if c < 0x800 then [0xC0 + c / 0x40, 0x80 + c % 0x40]
    else if c < 0x1_0000 then [0xE0 + c / 0x1000, 0x80 + c / 0x40 % 0x40, 0x80 + c % 0x40]
    else [0xF0 + c / 0x4_0000, 0x80 + c / 0x1000 % 0x40, 0x80 + c / 0x40 % 0x40, 0x80 + c % 0x40]
  }

  function Utf8All(cs: seq<nat>): (b: seq<byte>)
    requires forall c :: c in cs ==> Scalar(c)
  {
    if cs == [] then [] else Utf8(cs[0]) + Utf8All(cs[1..])
  }

  /** Table 3-7 of the Unicode Standard: the well-formed byte sequences. */
  predicate WellFormedBytes(b: seq<byte>) {
    || (|b| == 1 && b[0] < 0x80)
    || (|b| == 2 && 0xC2 <= b[0] <= 0xDF && Cont(b[1]))
    || (|b| == 3 && 0xE0 <= b[0] <= 0xEF && SecondOf3(b[0], b[1]) && Cont(b[2]))
    || (|b| == 4 && 0xF0 <= b[0] <= 0xF4 && SecondOf4(b[0], b[1]) && Cont(b[2]) && Cont(b[3]))
  }

  lemma Utf8WellFormed(c: nat)
    requires Scalar(c)
    ensures WellFormedBytes(Utf8(c))
  {
    if c < 0x80 {
    } else if c < 0x800 {
    } else if c < 0x1_0000 {
      var q, r := c / 0x40, c % 0x40;
      assert c / 0x1000 == q / 0x40;
      assert c == 0x40 * (0x40 * (q / 0x40) + q % 0x40) + r;
    } else {
      var q := c / 0x1000;
      assert c / 0x4_0000 == q / 0x40;
      assert q == 0x40 * (q / 0x40) + q % 0x40;
    }
  }

  /** Every well-formed byte sequence encodes a character. */
  lemma WellFormedChar(b: seq<byte>) returns (c: nat)
    requires WellFormedBytes(b)
    ensures Scalar(c) && Utf8(c) == b
  {
    var b0: int, b1: int := b[0], At(b, 1);
    if |b| == 1 {
      c := b0;
    } else if |b| == 2 {
      c := 0x40 * (b0 - 0xC0) + (b1 - 0x80);
    } else if |b| == 3 {
      c := ThreeByteChar(b);
    } else {
      c := FourByteChar(b);
    }
  }

  lemma ThreeByteChar(b: seq<byte>) returns (c: nat)
    requires WellFormedBytes(b) && |b| == 3
    ensures Scalar(c) && Utf8(c) == b
  {
    var b0: int, b1: int, b2: int := b[0], b[1], b[2];
    var q := 0x40 * (b0 - 0xE0) + (b1 - 0x80);
    c := 0x40 * q + (b2 - 0x80);
    assert c / 0x40 == q && c % 0x40 == b2 - 0x80;
    assert c / 0x1000 == q / 0x40 == b0 - 0xE0;
  }

  lemma FourByteChar(b: seq<byte>) returns (c: nat)
    requires WellFormedBytes(b) && |b| == 4
    ensures Scalar(c) && Utf8(c) == b
  {
    var b0: int, b1: int, b2: int, b3: int := b[0], b[1], b[2], b[3];
    var p := 0x40 * (b0 - 0xF0) + (b1 - 0x80);
    var q := 0x40 * p + (b2 - 0x80);
    c := 0x40 * q + (b3 - 0x80);
    assert c / 0x40 == q && c % 0x40 == b3 - 0x80;
    assert c / 0x1000 == p && q % 0x40 == b2 - 0x80;
    assert c / 0x4_0000 == p / 0x40 == b0 - 0xF0;
  }

  /** A well-formed character is decoded as one character. */
  lemma CharLenUtf8(c: nat, rest: seq<byte>)
    requires Scalar(c)
    ensures CharLen(Utf8(c) + rest) == |Utf8(c)|
  {
    Utf8WellFormed(c);
    hide Utf8;
    var b := Utf8(c);
    assert forall i :: 0 <= i < |b| ==> At(b + rest, i) == b[i];
  }

  /** A name in UTF-8 is fixed character by character: the fixed name has one byte per character, the
      character itself if it is a name character, '_' otherwise. */
  lemma {:induction false} FixedUtf8(rule: Rule, cs: seq<nat>, first: bool)
    requires forall c :: c in cs ==> Scalar(c)
    ensures |Fixed(rule, Utf8All(cs), first)| == |cs|
    ensures forall i :: 0 <= i < |cs| ==>
              Fixed(rule, Utf8All(cs), first)[i] == FixedChar(rule, cs[i], first && i == 0)
  {
    if cs != [] {
      hide Utf8, CharLen, Allowed, FixedChar;
      var b, rest := Utf8(cs[0]), Utf8All(cs[1..]);
      CharLenUtf8(cs[0], rest);
      FixedUtf8(rule, cs[1..], false);
      assert (b + rest)[|b|..] == rest && (b + rest)[0] == b[0];
      FirstByte(rule, cs[0], first);
    }
  }

  lemma FirstByte(rule: Rule, c: nat, first: bool)
    requires Scalar(c)
    ensures (if Allowed(rule, Utf8(c)[0], first) then Utf8(c)[0] else UNDERSCORE) == FixedChar(rule, c, first)
  {
    AllowedChar(rule, Utf8(c)[0], first);
  }

  // ---------- ill-formed bytes ----------

  predicate Begins(p: seq<byte>, c: nat)
    requires Scalar(c)
  {
    p <= Utf8(c)
  }

  ghost predicate BeginsSome(p: seq<byte>) {
    exists c :: Scalar(c) && Begins(p, c)
  }

  // A beginning of a well-formed sequence can be completed with lowest continuation bytes.
  lemma Completes(p: seq<byte>, tail: seq<byte>)
    requires WellFormedBytes(p + tail)
    ensures BeginsSome(p)
  {
    var c := WellFormedChar(p + tail);
    assert Begins(p, c);
  }

  lemma NoLonger(name: seq<byte>, n: nat)
    requires 1 <= n < |name| && BeginsSome(name[..n + 1])
    ensures n < CharLen(name)
  {
    var c :| Scalar(c) && Begins(name[..n + 1], c);
    Utf8WellFormed(c);
    hide Utf8;
    var b := Utf8(c);
    assert forall i :: 0 <= i <= n ==> name[..n + 1][i] == name[i] == b[i];
    if |b| > n + 1 { assert b[..n + 1] == name[..n + 1]; }
  }

  /** What is decoded as one character is a well-formed character, or else as much of the beginning of
      one as there is, and at least one byte: a maximal subpart (section 3.9 of the Unicode Standard). */
  lemma CharLenMaximal(name: seq<byte>)
    requires name != []
    ensures var n := CharLen(name);
            || (exists c :: Scalar(c) && Utf8(c) == name[..n])
            || ((n == 1 || BeginsSome(name[..n])) && (n < |name| ==> !BeginsSome(name[..n + 1])))
  {
    var n := CharLen(name);
    if WellFormedBytes(name[..n]) {
      var c := WellFormedChar(name[..n]);
    } else {
      if n < |name| && BeginsSome(name[..n + 1]) {
        NoLonger(name, n);
      }
      if n > 1 {
        Completes(name[..n], if name[0] < 0xF0 || n == 3 then [0x80] else [0x80, 0x80]);
      }
    }
  }
}
