/**
 What gentree does with one line once it is in the scratch buffer
 (main.c:166-188): strip a drive prefix or one leading separator, refuse paths
 that start with `..`, and cut off the directory portion.

 The scratch buffer `tmp[MAX_PATH]` is modelled explicitly. A line of length n
 occupies `tmp[0..n)` with a NUL at `tmp[n]`; everything after that is left over
 from earlier lines. The drive test reads `tmp[1]` and `tmp[2]` whatever the
 line's length, so for a blank line it sees the remains of an earlier line.
 */
module Paths {

  import opened Optional
  import opened Ascii

  /** `MAX_PATH` of the Linux build: `PATH_MAX` from linux/limits.h. */
  const MaxPath: nat := 4096

  /** A line whose characters 1 and 2 are `:` and a separator, such as `C:\`. */
  predicate HasDrivePrefix(line: Bytes) {
    |line| >= 3 && line[1] == COLON && IsSep(line[2])
  }

  /** Where the path proper starts in a non-blank line. */
  function EffectiveStart(line: Bytes): (n: nat)
    ensures n <= |line|
    ensures n == 3 <==> HasDrivePrefix(line)
    ensures n == 1 <==> !HasDrivePrefix(line) && |line| >= 1 && IsSep(line[0])
    ensures n == 0 <==> !HasDrivePrefix(line) && !(|line| >= 1 && IsSep(line[0]))
  {
    if HasDrivePrefix(line) then 3
    else if |line| >= 1 && IsSep(line[0]) then 1
    else 0
  }

  /** The line with its drive prefix or one leading separator removed. */
  function Target(line: Bytes): (d: Bytes)
    ensures |d| <= |line| && d == line[|line| - |d|..]
  {
    line[EffectiveStart(line)..]
  }

  /** The parent-traversal guard: the first two characters are both dots. */
  predicate IsParentRef(d: Bytes) {
    |d| >= 2 && d[0] == DOT && d[1] == DOT
  }

  /** Normalisation of a non-blank line: its target, or None when the line is skipped. */
  function Normalize(line: Bytes): (r: Option<Bytes>)
    ensures r.Some? ==> !IsParentRef(r.value) && |r.value| <= |line| && r.value == line[|line| - |r.value|..]
    ensures r.Some? ==> |line| - |r.value| == EffectiveStart(line)
    ensures r.None? <==> IsParentRef(line[EffectiveStart(line)..])
  {
    var d := Target(line);
    if IsParentRef(d) then None else Some(d)
  }

  /** Round trip: a drive prefix in front of a path is removed again. */
  lemma NormalizeStripsDrive(x: byte, s: byte, p: Bytes)
    requires IsSep(s) && !IsParentRef(p)
    ensures Normalize([x, COLON, s] + p) == Some(p)
  {
    assert ([x, COLON, s] + p)[3..] == p;
  }

  /**
   Round trip: one leading separator is removed, unless what follows looks like
   the tail of a drive prefix, in which case the drive test wins.
   */
  lemma NormalizeStripsSeparator(s: byte, p: Bytes)
    requires IsSep(s) && !IsParentRef(p)
    requires !(|p| >= 2 && p[0] == COLON && IsSep(p[1]))
    ensures Normalize([s] + p) == Some(p)
  {
    assert ([s] + p)[1..] == p;
  }

  /** A drive prefix in front of a `..` path is stripped and the line skipped. */
  lemma NormalizeSkipsDriveParent(x: byte, s: byte, p: Bytes)
    requires IsSep(s) && IsParentRef(p)
    ensures Normalize([x, COLON, s] + p) == None
  {
    assert ([x, COLON, s] + p)[3..] == p;
  }

  /** A separator in front of a `..` path is stripped and the line skipped. */
  lemma NormalizeSkipsSeparatorParent(s: byte, p: Bytes)
    requires IsSep(s) && IsParentRef(p)
    ensures Normalize([s] + p) == None
  {
    assert ([s] + p)[1..] == p;
  }

  /** A path with no prefix to strip and no leading `..` is its own normal form. */
  lemma NormalizeKeepsPlain(p: Bytes)
    requires !HasDrivePrefix(p) && !(|p| >= 1 && IsSep(p[0])) && !IsParentRef(p)
    ensures Normalize(p) == Some(p)
  {
  }

  /** A target starting with `..` is skipped, after either prefix has been stripped. */
  lemma ParentRefSkipped()
    ensures Normalize(FromString("../etc/passwd")) == None
  {
    var p := FromString("../etc/passwd");
    assert p[0] == DOT && p[1] == DOT && p[2] == SLASH;
    assert EffectiveStart(p) == 0;
  }

  /** The guard applies after stripping: `..foo` behind a separator is skipped too. */
  lemma StrippedParentRefSkipped()
    ensures Normalize(FromString("/..foo")) == None
  {
    assert FromString("/..foo")[1..] == FromString("..foo");
  }

  /** The guard looks only at the start: `..` further in is let through. */
  lemma MidPathParentKept()
    ensures Normalize(FromString("a/../b")) == Some(FromString("a/../b"))
  {
    var p := FromString("a/../b");
    assert p[0] == 0x61 && p[1] == SLASH;
    NormalizeKeepsPlain(p);
  }

  /** Only one leading separator is stripped. */
  lemma OneSeparatorOnly()
    ensures Normalize(FromString("//x")) == Some(FromString("/x"))
  {
    var p, q := FromString("//x"), FromString("/x");
    assert p[0] == SLASH && p[1] == SLASH && p[2] == q[1];
    assert q[0] == SLASH && !HasDrivePrefix(p);
    assert EffectiveStart(p) == 1;
    assert Target(p) == q by {
      assert p[1..] == q;
    }
    assert !IsParentRef(q);
  }

  /** A drive prefix and nothing more is stripped. */
  lemma DrivePrefixOnly()
    ensures Normalize(FromString("C:\\\\x")) == Some(FromString("\\x"))
  {
    var p, q := FromString("C:\\\\x"), FromString("\\x");
    assert p == [0x43, COLON, BACKSLASH, BACKSLASH, 0x78];
    assert q == [BACKSLASH, 0x78];
    assert p[3..] == q;
  }

  // ---------------------------------------------------------------------------
  // The scratch buffer

  /**
   A scratch buffer the loop may store the next line into. If `tmp[1]` and
   `tmp[2]` already read as the tail of a drive prefix, a NUL must follow index 3,
   or the C string the blank-line case reads would run off the buffer.
   */
  predicate StaleOk(tmp: Bytes) {
    |tmp| == MaxPath && (tmp[1] == COLON && IsSep(tmp[2]) ==> NUL in tmp[3..])
  }

  /** A buffer holding a line: each C string the normaliser may read is terminated. */
  predicate Readable(tmp: Bytes) {
    StaleOk(tmp) && NUL in tmp && (IsSep(tmp[0]) ==> NUL in tmp[1..])
  }

  /** The loop copying a line into the scratch buffer and overwriting its break with NUL. */
  function Store(tmp: Bytes, line: Bytes): (r: Bytes)
    requires |tmp| == MaxPath && |line| < MaxPath
    ensures |r| == MaxPath && r[|line|] == NUL
    ensures r[..|line|] == line && r[|line| + 1..] == tmp[|line| + 1..]
    ensures StaleOk(tmp) && IsLineText(line) ==> Readable(r)
  {
    StoredIsReadable(tmp, line);
    line + [NUL] + tmp[|line| + 1..]
  }

  lemma StoredIsReadable(tmp: Bytes, line: Bytes)
    requires |tmp| == MaxPath && |line| < MaxPath
    ensures StaleOk(tmp) && IsLineText(line) ==> Readable(line + [NUL] + tmp[|line| + 1..])
  {
    var r := line + [NUL] + tmp[|line| + 1..];
    assert r[|line|] == NUL;
    if StaleOk(tmp) && IsLineText(line) && r[1] == COLON && IsSep(r[2]) {
      if |line| >= 3 {
        assert r[3..][|line| - 3] == NUL;
      } else {
        assert |line| == 0;
        assert r[3..] == tmp[3..];
      }
    }
    if |line| >= 1 {
      assert r[1..][|line| - 1] == NUL;
    }
  }

  /** The C string at offset `off`: the bytes up to the next NUL. */
  function CString(tmp: Bytes, off: nat): (s: Bytes)
    requires off <= |tmp| && NUL in tmp[off..]
    ensures off + |s| < |tmp| && tmp[off + |s|] == NUL
    ensures s == tmp[off..off + |s|] && NUL !in s
    decreases |tmp| - off
  {
    if tmp[off] == NUL then []
    else
      assert NUL in tmp[off + 1..] by {
        var k :| 0 <= k < |tmp[off..]| && tmp[off..][k] == NUL;
        assert k > 0 && tmp[off + 1..][k - 1] == NUL;
      }
      [tmp[off]] + CString(tmp, off + 1)
  }

  /**
   The path the loop works on (`d` in main.c:168-177): from offset 3 when
   `tmp[1..2]` hold `:` and a separator, from offset 1 when `tmp[0]` is a
   separator, else from offset 0.
   */
  function LinePath(tmp: Bytes): (d: Bytes)
    requires Readable(tmp)
    ensures NUL !in d
  {
    if tmp[1] == COLON && IsSep(tmp[2]) then CString(tmp, 3)
    else if IsSep(tmp[0]) then CString(tmp, 1)
    else CString(tmp, 0)
  }

  /** The C string starting inside a stored line is the rest of that line. */
  lemma {:induction false} CStringOfStored(tmp: Bytes, line: Bytes, off: nat)
    requires |tmp| == MaxPath && |line| < MaxPath && IsLineText(line) && off <= |line|
    ensures NUL in Store(tmp, line)[off..]
    ensures CString(Store(tmp, line), off) == line[off..]
    decreases |line| - off
  {
    var r := Store(tmp, line);
    assert r[off..][|line| - off] == NUL;
    if off < |line| {
      assert r[off] == line[off];
      assert IsLineByte(line[off]);
      CStringOfStored(tmp, line, off + 1);
      assert line[off..] == [line[off]] + line[off + 1..];
    }
  }

  /** A non-blank line is normalised from its own bytes alone; the stale rest of the buffer plays no part. */
  lemma LinePathOfLine(tmp: Bytes, line: Bytes)
    requires StaleOk(tmp) && IsLineText(line) && 0 < |line| < MaxPath
    ensures LinePath(Store(tmp, line)) == Target(line)
  {
    var r := Store(tmp, line);
    var start := if r[1] == COLON && IsSep(r[2]) then 3 else if IsSep(r[0]) then 1 else 0;
    assert start == EffectiveStart(line) by {
      assert r[0] == line[0];
      if |line| == 1 {
        assert r[1] == NUL;
      } else if |line| == 2 {
        assert r[1] == line[1] && r[2] == NUL;
      } else {
        assert r[1] == line[1] && r[2] == line[2];
      }
    }
    assert LinePath(r) == CString(r, start);
    CStringOfStored(tmp, line, start);
  }

  /** A blank line is read from the remains of the buffer: the drive test sees the old `tmp[1..2]`. */
  lemma LinePathOfBlank(tmp: Bytes)
    requires StaleOk(tmp)
    ensures LinePath(Store(tmp, [])) == if tmp[1] == COLON && IsSep(tmp[2]) then CString(tmp, 3) else []
  {
    var r := Store(tmp, []);
    assert r[1..] == tmp[1..];
    assert r[3..] == tmp[3..];
    if tmp[1] == COLON && IsSep(tmp[2]) {
      assert CString(r, 3) == CString(tmp, 3) by {
        CStringSameSuffix(r, tmp, 3);
      }
    } else {
      assert r[0] == NUL;
    }
  }

  /** C strings read from two buffers that agree from `off` on are equal. */
  lemma {:induction false} CStringSameSuffix(a: Bytes, b: Bytes, off: nat)
    requires off <= |a| && off <= |b| && a[off..] == b[off..] && NUL in a[off..]
    ensures NUL in b[off..]
    ensures CString(a, off) == CString(b, off)
    decreases |a| - off
  {
    assert a[off..][0] == a[off] && b[off..][0] == b[off];
    if a[off] != NUL {
      assert a[off + 1..] == a[off..][1..] && b[off + 1..] == b[off..][1..];
      assert NUL in a[off + 1..] by {
        var k :| 0 <= k < |a[off..]| && a[off..][k] == NUL;
        assert k > 0 && a[off + 1..][k - 1] == NUL;
      }
      CStringSameSuffix(a, b, off + 1);
    }
  }

  /**
   A blank line right after a line with a drive prefix re-targets that line's
   path: the drive test still sees its `:` and separator, and offset 3 still
   holds its tail.
   */
  lemma BlankRepeatsDriveLine(tmp: Bytes, prev: Bytes)
    requires StaleOk(tmp) && IsLineText(prev) && |prev| < MaxPath && HasDrivePrefix(prev)
    ensures StaleOk(Store(tmp, prev))
    ensures LinePath(Store(Store(tmp, prev), [])) == Target(prev) == prev[3..]
  {
    var r := Store(tmp, prev);
    LinePathOfBlank(r);
    assert r[1] == prev[1] && r[2] == prev[2];
    CStringOfStored(tmp, prev, 3);
  }

  /** A blank line after any other non-blank line reads as the empty path. */
  lemma BlankAfterPlainLine(tmp: Bytes, prev: Bytes)
    requires StaleOk(tmp) && IsLineText(prev) && 0 < |prev| < MaxPath && !HasDrivePrefix(prev)
    ensures StaleOk(Store(tmp, prev))
    ensures LinePath(Store(Store(tmp, prev), [])) == []
  {
    var r := Store(tmp, prev);
    LinePathOfBlank(r);
    if |prev| == 1 {
      assert r[1] == NUL;
    } else if |prev| == 2 {
      assert r[2] == NUL;
    } else {
      assert r[1] == prev[1] && r[2] == prev[2];
    }
  }

  /** Storing a blank line only writes `tmp[0]`, so a second blank line leaves the buffer as it was. */
  lemma BlankAfterBlank(tmp: Bytes)
    requires |tmp| == MaxPath
    ensures Store(Store(tmp, []), []) == Store(tmp, [])
  {
  }

  /**
   One turn of the loop: after storing `line`, the path it reads, and the path
   a blank line stored next would read.
   */
  lemma StoreStep(tmp: Bytes, line: Bytes)
    requires StaleOk(tmp) && IsLineText(line) && |line| < MaxPath
    ensures StaleOk(Store(tmp, line))
    ensures line != [] ==> LinePath(Store(tmp, line)) == Target(line)
    ensures LinePath(Store(Store(tmp, line), [])) ==
              if line == [] then LinePath(Store(tmp, line))
              else if HasDrivePrefix(line) then Target(line)
              else []
  {
    if line != [] {
      LinePathOfLine(tmp, line);
      if HasDrivePrefix(line) {
        BlankRepeatsDriveLine(tmp, line);
      } else {
        BlankAfterPlainLine(tmp, line);
      }
    } else {
      BlankAfterBlank(tmp);
    }
  }

  // ---------------------------------------------------------------------------
  // The directory portion

  /**
   The directory portion of a target (main.c:178-188): the text before the
   last `/` if there is one, else before the last `\`; None when there is neither.
   */
  function DirPortion(d: Bytes): (r: Option<Bytes>)
    ensures r.None? <==> SLASH !in d && BACKSLASH !in d
    ensures r.Some? ==> |r.value| < |d| && r.value == d[..|r.value|] && IsSep(d[|r.value|])
    ensures r.Some? && SLASH in d ==> d[|r.value|] == SLASH && SLASH !in d[|r.value| + 1..]
    ensures r.Some? && SLASH !in d ==> BACKSLASH !in d[|r.value| + 1..]
  {
    match LastIndexOf(d, SLASH)
    case Some(i) => Some(d[..i])
    case None =>
      match LastIndexOf(d, BACKSLASH)
      case Some(i) => Some(d[..i])
      case None => None
  }

  /** The portion is fixed by the contract: any split meeting it is the one DirPortion picks. */
  lemma DirPortionUnique(d: Bytes, a: Bytes, s: byte, b: Bytes)
    requires d == a + [s] + b && IsSep(s)
    requires SLASH in d ==> s == SLASH && SLASH !in b
    requires SLASH !in d ==> BACKSLASH !in b
    ensures DirPortion(d) == Some(a)
  {
    var r := DirPortion(d);
    assert d[|a|] == s;
    assert b == d[|a| + 1..];
    assert r.value == d[..|a|] == a;
  }

  /** A `\` after the last `/` does not count: slashes are searched first. */
  lemma SlashBeforeBackslash()
    ensures DirPortion(FromString("a/b\\c.c")) == Some(FromString("a"))
  {
    var d := FromString("a/b\\c.c");
    DirPortionUnique(d, FromString("a"), SLASH, FromString("b\\c.c"));
  }

  /** Without a slash, the last backslash splits. */
  lemma LastBackslashSplits()
    ensures DirPortion(FromString("foo\\bar\\baz.c")) == Some(FromString("foo\\bar"))
  {
    var d := FromString("foo\\bar\\baz.c");
    DirPortionUnique(d, FromString("foo\\bar"), BACKSLASH, FromString("baz.c"));
  }

  /** With no separator there is no directory to create. */
  lemma NoSeparatorNoDir()
    ensures DirPortion(FromString("notes.txt")) == None
  {
    var f := FromString("notes.txt");
    assert forall i | 0 <= i < |f| :: f[i] != SLASH && f[i] != BACKSLASH;
  }
}
