/** Machine words, their little-endian byte encoding, and the outcome type shared by the models. */
module Bytes {

  type byte = x: int | 0 <= x < 0x100
  type u16 = x: int | 0 <= x < 0x1_0000
  type u32 = x: int | 0 <= x < 0x1_0000_0000

  datatype Option<+T> = None | Some(value: T)

  /** The source's error returns. `Fault` stands for everything that is not a returned error:
      a panic, an arithmetic overflow, or a raw read outside its slice. */
  datatype Error =
    | TooSmall | BadMagic | BadVersion | BadLength
    | NameOutOfRange | UnknownKind | MissingName
    | Inconsistent
    | TypeLengthMismatch | BadStringOffset | StringLengthMismatch
    | SectionNotFound | Bloated | Shrunk
    | Reloc
    | Fault

  datatype Result<+T> = Ok(value: T) | Err(error: Error) {
    predicate IsFailure() {
      Err?
    }

    function PropagateFailure<U>(): Result<U>
      requires Err?
    {
      Err(error)
    }

    function Extract(): T
      requires Ok?
    {
      value
    }
  }

  function Enc32(x: u32): (b: seq<byte>)
    ensures |b| == 4
  {
    var (q1, q2, q3) := (x / 0x100, x / 0x100 / 0x100, x / 0x100 / 0x100 / 0x100);
    [x % 0x100, q1 % 0x100, q2 % 0x100, q3]
  }

  function Dec32(b: seq<byte>): (x: u32)
    requires |b| == 4
  {
    var b0: int, b1: int, b2: int, b3: int := b[0], b[1], b[2], b[3];
    b0 + 0x100 * b1 + 0x1_0000 * b2 + 0x100_0000 * b3
  }

  lemma WordRoundTrip(x: u32)
    ensures Dec32(Enc32(x)) == x
  {
  }

  lemma ByteRoundTrip(b: seq<byte>)
    requires |b| == 4
    ensures Enc32(Dec32(b)) == b
  {
    var x := Dec32(b);
    var b1: int, b2: int, b3: int := b[1], b[2], b[3];
    assert x / 0x100 == b1 + 0x100 * b2 + 0x1_0000 * b3;
    assert x / 0x100 / 0x100 == b2 + 0x100 * b3;
    assert x / 0x100 / 0x100 / 0x100 == b3;
  }

  function EncWords(ws: seq<u32>): (b: seq<byte>)
    ensures |b| == 4 * |ws|
  {
    if ws == [] then [] else Enc32(ws[0]) + EncWords(ws[1..])
  }

  function DecWords(b: seq<byte>): (ws: seq<u32>)
    requires |b| % 4 == 0
    ensures 4 * |ws| == |b|
  {
    if b == [] then [] else [Dec32(b[..4])] + DecWords(b[4..])
  }

  lemma {:induction false} WordsRoundTrip(ws: seq<u32>)
    ensures DecWords(EncWords(ws)) == ws
  {
    if ws != [] {
      var b := EncWords(ws);
      assert b[..4] == Enc32(ws[0]) && b[4..] == EncWords(ws[1..]);
      WordRoundTrip(ws[0]);
      WordsRoundTrip(ws[1..]);
    }
  }

  lemma {:induction false} BytesRoundTrip(b: seq<byte>)
    requires |b| % 4 == 0
    ensures EncWords(DecWords(b)) == b
  {
    if b != [] {
      var ws := DecWords(b);
      assert ws[0] == Dec32(b[..4]) && ws[1..] == DecWords(b[4..]);
      ByteRoundTrip(b[..4]);
      BytesRoundTrip(b[4..]);
      assert b == b[..4] + b[4..];
    }
  }

  lemma {:induction false} EncWordsConcat(a: seq<u32>, b: seq<u32>)
    ensures EncWords(a + b) == EncWords(a) + EncWords(b)
  {
    if a == [] {
      assert a + b == b;
    } else {
      EncWordsConcat(a[1..], b);
      assert (a + b)[1..] == a[1..] + b;
      hide Enc32;
      var x, y, z := Enc32(a[0]), EncWords(a[1..]), EncWords(b);
      assert x + (y + z) == (x + y) + z;
    }
  }

  function Zeros(n: nat): (b: seq<byte>)
    ensures |b| == n
  {
    seq(n, i => 0)
  }

  function Overwrite(s: seq<byte>, off: nat, x: seq<byte>): (t: seq<byte>)
    requires off + |x| <= |s|
    ensures |t| == |s|
  {
    s[..off] + x + s[off + |x|..]
  }

  lemma OverwriteSame(s: seq<byte>, off: nat, x: seq<byte>)
    requires off + |x| <= |s| && s[off..off + |x|] == x
    ensures Overwrite(s, off, x) == s
  {
  }

  /** Copies `x` into the buffer in place. */
  method WriteAt(buf: array<byte>, off: nat, x: seq<byte>)
    requires off + |x| <= buf.Length
    modifies buf
    ensures buf[..] == Overwrite(old(buf[..]), off, x)
  {
    for i := 0 to |x|
      invariant forall p :: 0 <= p < buf.Length ==>
                  buf[p] == if off <= p < off + i then x[p - off] else old(buf[p])
    {
      buf[off + i] := x[i];
    }
  }
}
