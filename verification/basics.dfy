/** Optional values: the model's stand-in for the NULL that `strrchr` returns. */
module Optional {

  datatype Option<+T> = None | Some(value: T)
}

/**
 Bytes and the few ASCII characters gentree inspects. The program works on
 `char` buffers; here a byte is an unbounded integer restricted to 0..255 and
 the signedness of `char` is replaced by the explicit test `IsHigh`.
 */
module Ascii {

  import opened Optional

  newtype byte = b: int | 0 <= b < 256

  type Bytes = seq<byte>

  const NUL: byte := 0x00
  const LF: byte := 0x0A
  const CR: byte := 0x0D
  const DOT: byte := 0x2E
  const SLASH: byte := 0x2F
  const COLON: byte := 0x3A
  const BACKSLASH: byte := 0x5C

  /** Both `/` and `\` separate path components. */
  predicate IsSep(b: byte) {
    b == SLASH || b == BACKSLASH
  }

  /** A byte with its high bit set: the ones a signed `char` reads as negative. */
  predicate IsHigh(b: byte) {
    b >= 0x80
  }

  predicate IsLineBreak(b: byte) {
    b == CR || b == LF
  }

  /** A byte the line tokenizer can copy into a line. */
  predicate IsLineByte(b: byte) {
    b != NUL && !IsHigh(b) && !IsLineBreak(b)
  }

  predicate IsLineText(s: Bytes) {
    forall i | 0 <= i < |s| :: IsLineByte(s[i])
  }

  /** ASCII case folding, as `strcasecmp` does it in the C locale. */
  function Lower(b: byte): (r: byte)
    ensures r == DOT <==> b == DOT
  {
    if 0x41 <= b <= 0x5A then b + 0x20 else b
  }

  function LowerAll(s: Bytes): (r: Bytes)
    ensures |r| == |s|
    ensures forall i | 0 <= i < |s| :: r[i] == Lower(s[i])
  {
    seq(|s|, i requires 0 <= i < |s| => Lower(s[i]))
  }

  /** The bytes of a string literal; a character beyond one byte becomes NUL (the model only uses ASCII ones). */
  function FromString(s: string): (r: Bytes)
    ensures |r| == |s|
    ensures forall i | 0 <= i < |s| :: r[i] as int == if s[i] as int < 0x100 then s[i] as int else 0
  {
    seq(|s|, i requires 0 <= i < |s| => if s[i] as int < 0x100 then s[i] as byte else NUL)
  }

  /** The position `strrchr` finds: the last occurrence of `b`, if any. */
  function LastIndexOf(s: Bytes, b: byte): (r: Option<nat>)
    ensures r.None? <==> b !in s
    ensures r.Some? ==> r.value < |s| && s[r.value] == b && b !in s[r.value + 1..]
  {
    if |s| == 0 then None
    else if s[|s| - 1] == b then Some(|s| - 1)
    else
      var r := LastIndexOf(s[..|s| - 1], b);
      assert s == s[..|s| - 1] + [s[|s| - 1]];
      r
  }

  /** Folding case does not move any dot, so the last dot is found at the same place. */
  lemma {:induction false} LastDotIgnoresCase(s: Bytes)
    ensures LastIndexOf(LowerAll(s), DOT) == LastIndexOf(s, DOT)
    decreases |s|
  {
    if |s| > 0 {
      assert LowerAll(s)[..|s| - 1] == LowerAll(s[..|s| - 1]);
      LastDotIgnoresCase(s[..|s| - 1]);
    }
  }
}
