/** Names in the shared BTF string table, and their sanitising in place. */
module BtfNames {
  import opened Bytes

  const UNDERSCORE: byte := 95

  // Identifier: fix_btf_identifier. DottedName: fix_btf_name, which also admits '.'.
  datatype Rule = Identifier | DottedName

  predicate Digit(b: byte) {
    48 <= b <= 57
  }

  predicate Allowed(rule: Rule, b: byte, first: bool) {
    if Digit(b) then !first
    else b == UNDERSCORE || 65 <= b <= 90 || 97 <= b <= 122 || (rule == DottedName && b == 46)
  }

  predicate ValidName(rule: Rule, name: seq<byte>) {
    forall i :: 0 <= i < |name| ==> Allowed(rule, name[i], i == 0)
  }

  // ---------- NUL-terminated strings in the table ----------

  predicate Terminated(s: seq<byte>, off: nat) {
    exists p :: off <= p < |s| && s[p] == 0
  }

  function StringEnd(s: seq<byte>, off: nat): (e: nat)
    requires Terminated(s, off)
    ensures off <= e < |s| && s[e] == 0
    ensures forall p :: off <= p < e ==> s[p] != 0
    decreases |s| - off
  {
    if s[off] == 0 then off else StringEnd(s, off + 1)
  }

  function CStr(s: seq<byte>, off: nat): (name: seq<byte>)
    requires Terminated(s, off)
    ensures 0 !in name
  {
    s[off..StringEnd(s, off)]
  }

  predicate SameNuls(s: seq<byte>, t: seq<byte>) {
    |s| == |t| && forall p :: 0 <= p < |s| ==> (s[p] == 0 <==> t[p] == 0)
  }

  lemma SameStringEnd(s: seq<byte>, t: seq<byte>, off: nat)
    requires SameNuls(s, t)
    ensures Terminated(s, off) <==> Terminated(t, off)
    ensures Terminated(s, off) ==> StringEnd(s, off) == StringEnd(t, off)
  {
    if Terminated(s, off) {
      var p :| off <= p < |s| && s[p] == 0;
      assert t[p] == 0;
    }
    if Terminated(t, off) {
      var p :| off <= p < |t| && t[p] == 0;
      assert s[p] == 0;
    }
  }

  /** Zero padding after the table changes no name that could be read before. */
  lemma PaddingKeepsNames(s: seq<byte>, n: nat, off: nat)
    requires Terminated(s, off)
    ensures Terminated(s + Zeros(n), off) && CStr(s + Zeros(n), off) == CStr(s, off)
  {
    var t, e := s + Zeros(n), StringEnd(s, off);
    assert off <= e < |t| && t[e] == 0;
    assert forall p :: off <= p < e ==> t[p] == s[p];
    var e' := StringEnd(t, off);
  }

  // ---------- lossy UTF-8 decoding ----------

  function At(s: seq<byte>, i: nat): byte {
    if i < |s| then s[i] else 0
  }

  predicate Cont(b: byte) {
    0x80 <= b <= 0xBF
  }

  predicate SecondOf3(b: byte, c: byte) {
    if b == 0xE0 then 0xA0 <= c <= 0xBF else if b == 0xED then 0x80 <= c <= 0x9F else Cont(c)
  }

  predicate SecondOf4(b: byte, c: byte) {
    if b == 0xF0 then 0x90 <= c <= 0xBF else if b == 0xF4 then 0x80 <= c <= 0x8F else Cont(c)
  }

  /** Bytes that `to_string_lossy` turns into the next one character: a well-formed UTF-8
      character, or a maximal ill-formed piece, which becomes one replacement character. */
  function CharLen(s: seq<byte>): (n: nat)
    requires s != []
    ensures 1 <= n <= |s|
    ensures s[0] < 0x80 ==> n == 1
  {
    var b := s[0];
    if 0xC2 <= b <= 0xDF then
      if Cont(At(s, 1)) then 2 else 1
    else if 0xE0 <= b <= 0xEF then
      if !SecondOf3(b, At(s, 1)) then 1 else if !Cont(At(s, 2)) then 2 else 3
    else if 0xF0 <= b <= 0xF4 then
      if !SecondOf4(b, At(s, 1)) then 1 else if !Cont(At(s, 2)) then 2
      else if !Cont(At(s, 3)) then 3 else 4
    else 1
  }

  /** The bytes of the fixed name: one byte per character of the lossily decoded name. */
  function Fixed(rule: Rule, name: seq<byte>, first: bool): (r: seq<byte>) {
    if name == [] then []
    else [if Allowed(rule, name[0], first) then name[0] else UNDERSCORE]
         + Fixed(rule, name[CharLen(name)..], false)
  }

  predicate AsciiOnly(s: seq<byte>) {
    forall p :: 0 <= p < |s| ==> s[p] < 0x80
  }

  lemma {:induction false} FixedShape(rule: Rule, name: seq<byte>, first: bool)
    ensures |Fixed(rule, name, first)| <= |name|
    ensures name != [] ==> Fixed(rule, name, first) != []
    ensures forall i :: 0 <= i < |Fixed(rule, name, first)| ==> 0 < Fixed(rule, name, first)[i] < 0x80
    ensures forall i :: 0 <= i < |Fixed(rule, name, first)| ==>
              Allowed(rule, Fixed(rule, name, first)[i], first && i == 0)
  {
    if name != [] {
      FixedShape(rule, name[CharLen(name)..], false);
    }
  }

  lemma {:induction false} FixedAscii(rule: Rule, name: seq<byte>, first: bool)
    requires AsciiOnly(name)
    ensures |Fixed(rule, name, first)| == |name|
    ensures forall i :: 0 <= i < |name| ==>
              Fixed(rule, name, first)[i] ==
              if Allowed(rule, name[i], first && i == 0) then name[i] else UNDERSCORE
  {
    if name != [] {
      FixedAscii(rule, name[1..], false);
    }
  }

  // The first non-ASCII byte of a name is always overwritten by '_'.
  lemma {:induction false} FixedLosesHighByte(rule: Rule, name: seq<byte>, first: bool) returns (p: nat)
    requires !AsciiOnly(name)
    ensures p < |name| && name[p] >= 0x80
    ensures p < |Fixed(rule, name, first)|
  {
    if name[0] >= 0x80 {
      p := 0;
    } else {
      assert !AsciiOnly(name[1..]) by {
        var q :| 0 <= q < |name| && name[q] >= 0x80;
        assert name[1..][q - 1] == name[q];
      }
      var q := FixedLosesHighByte(rule, name[1..], false);
      p := q + 1;
    }
  }

  /** A name is left alone by the fix exactly when it already obeys its rule. */
  lemma FixedIdentity(rule: Rule, name: seq<byte>)
    ensures Fixed(rule, name, true) == name <==> ValidName(rule, name)
  {
    if ValidName(rule, name) {
      assert AsciiOnly(name);
      FixedAscii(rule, name, true);
    } else if Fixed(rule, name, true) == name {
      FixedShape(rule, name, true);
      assert false;
    }
  }

  // ---------- overwriting in the shared table ----------

  /** fix_name_str_section: copies the fixed bytes over the table in place. */
  method FixNameStrSection(fixed: seq<byte>, off: nat, table: array<byte>)
    requires off + |fixed| <= table.Length
    modifies table
    ensures table[..] == Overwrite(old(table[..]), off, fixed)
  {
    WriteAt(table, off, fixed);
  }

  /** The table after the name at `off` has been fixed. */
  function FixAt(rule: Rule, s: seq<byte>, off: nat): (t: seq<byte>)
    requires Terminated(s, off)
    ensures |t| == |s|
  {
    var fixed := Fixed(rule, CStr(s, off), true);
    FixedShape(rule, CStr(s, off), true);
    Overwrite(s, off, fixed)
  }

  /** What any number of fixes can do to the table. NULs stay where they are, no non-ASCII byte
      appears, and either a non-ASCII byte is gone for good or every changed byte became '_'. */
  ghost predicate Degrades(s: seq<byte>, t: seq<byte>) {
    && SameNuls(s, t)
    && (forall p :: 0 <= p < |s| && t[p] >= 0x80 ==> s[p] == t[p])
    && ((exists p :: 0 <= p < |s| && s[p] >= 0x80 > t[p]) || OnlyUnderscored(s, t))
  }

  ghost predicate OnlyUnderscored(s: seq<byte>, t: seq<byte>)
    requires |s| == |t|
  {
    forall p :: 0 <= p < |s| ==> t[p] == s[p] || t[p] == UNDERSCORE
  }

  lemma DegradesTransitive(s: seq<byte>, t: seq<byte>, u: seq<byte>)
    requires Degrades(s, t) && Degrades(t, u)
    ensures Degrades(s, u)
  {
    if exists p :: 0 <= p < |s| && s[p] >= 0x80 > t[p] {
      var p :| 0 <= p < |s| && s[p] >= 0x80 > t[p];
      assert s[p] >= 0x80 > u[p];
    } else if exists p :: 0 <= p < |t| && t[p] >= 0x80 > u[p] {
      var p :| 0 <= p < |t| && t[p] >= 0x80 > u[p];
      assert s[p] >= 0x80 > u[p];
    }
  }

  /** No later fix undoes an earlier one. */
  lemma DegradesAntisymmetric(s: seq<byte>, t: seq<byte>)
    requires Degrades(s, t) && Degrades(t, s)
    ensures s == t
  {
    assert forall p :: 0 <= p < |s| ==> s[p] == t[p];
  }

  lemma FixDegrades(rule: Rule, s: seq<byte>, off: nat)
    requires Terminated(s, off)
    ensures Degrades(s, FixAt(rule, s, off)) && SameNuls(s, FixAt(rule, s, off))
    ensures AsciiOnly(CStr(s, off)) ==> OnlyUnderscored(s, FixAt(rule, s, off))
  {
    hide Fixed, CharLen, Allowed;
    var name := CStr(s, off);
    var fixed := Fixed(rule, name, true);
    var t := FixAt(rule, s, off);
    FixedShape(rule, name, true);
    assert forall p :: 0 <= p < |s| && !(off <= p < off + |fixed|) ==> t[p] == s[p];
    assert forall p :: off <= p < off + |fixed| ==>
      t[p] == fixed[p - off] && s[p] == name[p - off] && s[p] != 0 && 0 < t[p] < 0x80;
    if AsciiOnly(name) {
      FixedAscii(rule, name, true);
      assert OnlyUnderscored(s, t);
    } else {
      var p := FixedLosesHighByte(rule, name, true);
      assert s[off + p] >= 0x80 > t[off + p];
    }
  }

  /** The bytes of a name that its fixed form is too short to cover are allowed as they stand. */
  predicate TailAllowed(rule: Rule, name: seq<byte>) {
    forall i :: |Fixed(rule, name, true)| <= i < |name| ==> Allowed(rule, name[i], false)
  }

  lemma AsciiTailAllowed(rule: Rule, name: seq<byte>)
    requires AsciiOnly(name)
    ensures TailAllowed(rule, name)
  {
    FixedAscii(rule, name, true);
  }

  lemma FixedPart(rule: Rule, s: seq<byte>, off: nat)
    requires Terminated(s, off)
    ensures var name, t := CStr(s, off), FixAt(rule, s, off);
            var k := |Fixed(rule, name, true)|;
            k <= |name| && Terminated(t, off) && CStr(t, off) == Fixed(rule, name, true) + name[k..]
  {
    hide Fixed, Degrades, StringEnd;
    FixedShape(rule, CStr(s, off), true);
    FixDegrades(rule, s, off);
    SameStringEnd(s, FixAt(rule, s, off), off);
  }

  lemma ValidByParts(rule: Rule, name: seq<byte>)
    ensures var fixed := Fixed(rule, name, true);
            |fixed| <= |name| && (ValidName(rule, fixed + name[|fixed|..]) <==> TailAllowed(rule, name))
  {
    hide Fixed, Allowed;
    FixedShape(rule, name, true);
    var fixed := Fixed(rule, name, true);
    var name' := fixed + name[|fixed|..];
    assert forall i :: |fixed| <= i < |name| ==> name'[i] == name[i] && i != 0;
  }

  /** One fix, exactly: the name now read at `off` is the fixed name followed by the old bytes it
      was too short to cover, so it obeys the rule if and only if those left-over bytes do. */
  lemma FixExact(rule: Rule, s: seq<byte>, off: nat)
    requires Terminated(s, off)
    ensures var name, t := CStr(s, off), FixAt(rule, s, off);
            var k := |Fixed(rule, name, true)|;
            && k <= |name| && Terminated(t, off)
            && CStr(t, off) == Fixed(rule, name, true) + name[k..]
            && (ValidName(rule, CStr(t, off)) <==> TailAllowed(rule, name))
  {
    hide *;
    FixedPart(rule, s, off);
    ValidByParts(rule, CStr(s, off));
  }

  lemma DifferentStrings(s: seq<byte>, off: nat, other: nat)
    requires Terminated(s, off) && Terminated(s, other) && StringEnd(s, off) != StringEnd(s, other)
    ensures StringEnd(s, off) < other || StringEnd(s, other) < off
  {
    hide StringEnd;
    assert s[StringEnd(s, off)] == 0 && s[StringEnd(s, other)] == 0;
  }

  lemma FixFrame(rule: Rule, s: seq<byte>, off: nat)
    requires Terminated(s, off)
    ensures forall p :: 0 <= p < |s| && !(off <= p < StringEnd(s, off)) ==> FixAt(rule, s, off)[p] == s[p]
  {
    FixedShape(rule, CStr(s, off), true);
  }

  /** A fix changes no string that ends elsewhere in the table. */
  lemma FixElsewhere(rule: Rule, s: seq<byte>, off: nat, other: nat)
    requires Terminated(s, off) && Terminated(s, other) && StringEnd(s, off) != StringEnd(s, other)
    ensures Terminated(FixAt(rule, s, off), other) && CStr(FixAt(rule, s, off), other) == CStr(s, other)
  {
    hide FixAt, StringEnd, Degrades;
    FixDegrades(rule, s, off);
    SameStringEnd(s, FixAt(rule, s, off), other);
    FixFrame(rule, s, off);
    DifferentStrings(s, off, other);
  }

  /** Both tables read the same strings wherever these end at `e`. */
  ghost predicate AgreeOn(s: seq<byte>, t: seq<byte>, e: nat) {
    && SameNuls(s, t)
    && forall off: nat :: Terminated(s, off) && StringEnd(s, off) == e ==>
         Terminated(t, off) && CStr(t, off) == CStr(s, off)
  }

  // Fixing a string that ends elsewhere in one table only.
  lemma AgreeElsewhere(rule: Rule, s: seq<byte>, t: seq<byte>, off: nat, e: nat)
    requires Terminated(s, off) && StringEnd(s, off) != e && AgreeOn(s, t, e)
    ensures AgreeOn(FixAt(rule, s, off), t, e)
  {
    hide FixAt, StringEnd, Degrades, CStr;
    var s' := FixAt(rule, s, off);
    FixDegrades(rule, s, off);
    forall o: nat | Terminated(s', o) && StringEnd(s', o) == e ensures Terminated(t, o) && CStr(t, o) == CStr(s', o) {
      SameStringEnd(s, s', o);
      FixElsewhere(rule, s, off, o);
    }
  }

  lemma FixedBytes(rule: Rule, s: seq<byte>, off: nat)
    requires Terminated(s, off)
    ensures var fixed, t := Fixed(rule, CStr(s, off), true), FixAt(rule, s, off);
            forall p :: 0 <= p < |s| ==> t[p] == if off <= p < off + |fixed| then fixed[p - off] else s[p]
  {
    hide Fixed;
    FixedShape(rule, CStr(s, off), true);
  }

  // The string read at `o` after a fix at `off` is determined by the two strings read before.
  lemma FixedSame(rule: Rule, s: seq<byte>, t: seq<byte>, off: nat, o: nat)
    requires SameNuls(s, t) && Terminated(s, off) && Terminated(s, o) && Terminated(t, off) && Terminated(t, o)
    requires CStr(s, off) == CStr(t, off) && CStr(s, o) == CStr(t, o)
    ensures var s', t' := FixAt(rule, s, off), FixAt(rule, t, off);
            Terminated(s', o) && Terminated(t', o) && CStr(s', o) == CStr(t', o)
  {
    hide FixAt, StringEnd, Degrades, Fixed;
    FixDegrades(rule, s, off);
    FixDegrades(rule, t, off);
    FixedBytes(rule, s, off);
    FixedBytes(rule, t, off);
    SameStringEnd(s, t, o);
    SameStringEnd(s, FixAt(rule, s, off), o);
    SameStringEnd(t, FixAt(rule, t, off), o);
    var e := StringEnd(s, o);
    assert forall p :: o <= p < e ==> s[p] == CStr(s, o)[p - o] && t[p] == CStr(t, o)[p - o];
  }

  lemma FixSameNuls(rule: Rule, s: seq<byte>, t: seq<byte>, off: nat)
    requires SameNuls(s, t) && Terminated(s, off) && Terminated(t, off)
    ensures SameNuls(s, FixAt(rule, s, off)) && SameNuls(FixAt(rule, s, off), FixAt(rule, t, off))
  {
    hide FixAt, Degrades;
    FixDegrades(rule, s, off);
    FixDegrades(rule, t, off);
  }

  // Fixing the same string in both tables.
  lemma AgreeFixed(rule: Rule, s: seq<byte>, t: seq<byte>, off: nat, e: nat)
    requires Terminated(s, off) && StringEnd(s, off) == e && AgreeOn(s, t, e)
    ensures Terminated(t, off) && AgreeOn(FixAt(rule, s, off), FixAt(rule, t, off), e)
  {
    hide FixAt, StringEnd, SameNuls, CStr;
    var s', t' := FixAt(rule, s, off), FixAt(rule, t, off);
    FixSameNuls(rule, s, t, off);
    forall o: nat | Terminated(s', o) && StringEnd(s', o) == e ensures Terminated(t', o) && CStr(t', o) == CStr(s', o) {
      SameStringEnd(s, s', o);
      FixedSame(rule, s, t, off, o);
    }
  }

  /** Fixes bring no byte above 127 into a string. */
  lemma AsciiStable(s: seq<byte>, t: seq<byte>, off: nat)
    requires Degrades(s, t) && Terminated(s, off) && AsciiOnly(CStr(s, off))
    ensures Terminated(t, off) && AsciiOnly(CStr(t, off))
  {
    SameStringEnd(s, t, off);
    var a, b := CStr(s, off), CStr(t, off);
    assert forall i :: 0 <= i < |b| ==> a[i] == s[off + i] && b[i] == t[off + i];
  }

  lemma FixIdentity(rule: Rule, s: seq<byte>, off: nat)
    requires Terminated(s, off)
    ensures FixAt(rule, s, off) == s <==> ValidName(rule, CStr(s, off))
  {
    hide Fixed, CharLen, Allowed, ValidName;
    var name := CStr(s, off);
    FixedIdentity(rule, name);
    FixedShape(rule, name, true);
    var fixed := Fixed(rule, name, true);
    var t := FixAt(rule, s, off);
    if t == s {
      assert fixed == t[off..off + |fixed|] == name[..|fixed|];
      if fixed != name {
        assert !AsciiOnly(name) by { if AsciiOnly(name) { FixedAscii(rule, name, true); } }
        var p := FixedLosesHighByte(rule, name, true);
        assert false;
      }
    }
  }

  /** Later fixes keep a valid name valid when they only write underscores. */
  lemma UnderscoresKeepValid(rule: Rule, s: seq<byte>, t: seq<byte>, off: nat)
    requires Terminated(s, off) && SameNuls(s, t) && OnlyUnderscored(s, t)
    requires ValidName(rule, CStr(s, off))
    ensures Terminated(t, off) && ValidName(rule, CStr(t, off))
  {
    SameStringEnd(s, t, off);
    var a, b := CStr(s, off), CStr(t, off);
    forall i | 0 <= i < |b|
      ensures Allowed(rule, b[i], i == 0)
    {
      assert Allowed(rule, a[i], i == 0) && (b[i] == a[i] || b[i] == UNDERSCORE);
    }
  }

  /** Counterexample: a two-byte character makes the fixed name one byte short, and the byte left
      behind is still invalid. */
  lemma MultiByteNameStaysInvalid()
    ensures var s: seq<byte> := [0, 0xC3, 0xA9, 0];
            Terminated(s, 1) && Terminated(FixAt(Identifier, s, 1), 1) &&
            !ValidName(Identifier, CStr(FixAt(Identifier, s, 1), 1))
  {
    var s: seq<byte> := [0, 0xC3, 0xA9, 0];
    assert s[3] == 0;
    var name := CStr(s, 1);
    assert StringEnd(s, 1) == 3 && name == [0xC3, 0xA9];
    assert CharLen(name) == 2 && name[2..] == [];
    assert Fixed(Identifier, name, true) == [UNDERSCORE];
    FixExact(Identifier, s, 1);
    assert !Allowed(Identifier, name[1], false);
  }
}
