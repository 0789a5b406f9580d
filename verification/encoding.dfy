/**
 `IsUTF16` (main.c:104-109): read two bytes into a local `char buf[2]`, rewind,
 and test them for the little-endian byte-order mark. The byte-order mark is
 U+FEFF (section 3.2 of RFC 2781); serialised little-endian it is FF FE.

 `fread` fills only as many bytes as the file has; the rest of `buf` keeps
 whatever the stack held, passed in here as `stale`.
 */
module Encoding {

  import opened Ascii

  datatype Encoding = Utf16Le | SingleByte

  /** The code point of the byte-order mark. */
  const ByteOrderMark: int := 0xFEFF

  /** A 16-bit code unit serialised little-endian: low byte first. */
  function UnitLe(lo: byte, hi: byte): (u: int)
    ensures 0 <= u < 0x10000
  {
    lo as int + 0x100 * hi as int
  }

  /** The two bytes `buf` holds after `fread(buf, 1, 2, file)`. */
  function ReadTwo(raw: Bytes, stale: Bytes): (buf: Bytes)
    requires |stale| == 2
    ensures |buf| == 2
    ensures forall i | 0 <= i < 2 :: buf[i] == if i < |raw| then raw[i] else stale[i]
  {
    if |raw| >= 2 then raw[..2] else raw + stale[|raw|..]
  }

  /** The test of `IsUTF16` as written. */
  function IsUtf16(raw: Bytes, stale: Bytes): (b: bool)
    requires |stale| == 2
    ensures |raw| >= 2 ==> (b <==> raw[0] == 0xFF && raw[1] == 0xFE)
    ensures |raw| == 0 ==> (b <==> stale[0] == 0xFF && stale[1] == 0xFE)
  {
    var buf := ReadTwo(raw, stale);
    buf[0] == 0xFF && buf[1] == 0xFE
  }

  /** For a file of two bytes or more, the test is exactly "the first code unit, read little-endian, is the BOM". */
  lemma IsUtf16IffLeBom(raw: Bytes, stale: Bytes)
    requires |stale| == 2 && |raw| >= 2
    ensures IsUtf16(raw, stale) <==> UnitLe(raw[0], raw[1]) == ByteOrderMark
  {
    if UnitLe(raw[0], raw[1]) == ByteOrderMark {
      assert raw[0] as int + 0x100 * raw[1] as int == 0xFEFF;
    }
  }

  /** Only the stale bytes decide for shorter files. */
  lemma ShortInputReadsStale(raw: Bytes, stale: Bytes)
    requires |stale| == 2 && |raw| < 2
    ensures IsUtf16(raw, stale) <==> (if |raw| == 1 then raw[0] else stale[0]) == 0xFF && stale[1] == 0xFE
  {
  }

  /** The as-written test can report UTF-16 for a one-byte file, when the stack held FE. */
  lemma OneByteFileSeenAsUtf16()
    ensures IsUtf16([0xFF], [0x00, 0xFE])
  {
  }

  /** The detection evidently meant: a file too short to hold a BOM is single-byte. */
  function Detect(raw: Bytes): (e: Encoding)
    ensures e == Utf16Le ==> |raw| >= 2 && UnitLe(raw[0], raw[1]) == ByteOrderMark
    ensures |raw| >= 2 && UnitLe(raw[0], raw[1]) == ByteOrderMark ==> e == Utf16Le
  {
    if |raw| >= 2 && raw[0] == 0xFF && raw[1] == 0xFE then Utf16Le else SingleByte
  }

  /** The corrected detection agrees with `IsUTF16` wherever the latter reads only the file. */
  lemma DetectAgreesOnLongInput(raw: Bytes, stale: Bytes)
    requires |stale| == 2 && |raw| >= 2
    ensures Detect(raw) == Utf16Le <==> IsUtf16(raw, stale)
  {
    IsUtf16IffLeBom(raw, stale);
  }

  /** Neither a big-endian BOM nor a UTF-8 BOM is taken for UTF-16. */
  lemma OtherMarksNotUtf16(rest: Bytes, stale: Bytes)
    requires |stale| == 2
    ensures !IsUtf16([0xFE, 0xFF] + rest, stale)
    ensures !IsUtf16([0xEF, 0xBB, 0xBF] + rest, stale)
    ensures IsUtf16([0xFF, 0xFE] + rest, stale)
  {
  }
}
