/**
 The per-line loop of gentree's `main` (main.c:156-218) over the decoded
 buffer. The filesystem is an oracle: for the k-th line and a path it says what
 `mkdir` reports and whether `fopen` succeeds. Each line yields one action: a
 skip, or the `mkdir` calls made, the file opened and what was written to it.
 */
module Gentree {

  import opened Optional
  import opened Ascii
  import opened Tokenizer
  import opened Paths
  import opened CreatePath
  import opened FileType

  /** What `fopen(d, "w")` led to: the stub written, or `FAILED`. */
  datatype OpenResult = Done(content: Bytes) | Failed

  datatype Action =
    | Skip
    | Write(mkdirs: seq<Bytes>, file: Bytes, result: OpenResult)

  /** The filesystem's answers, by line number and path. */
  datatype Oracle = Oracle(mkdir: (nat, Bytes) -> MkdirResult, open: (nat, Bytes) -> bool)

  /** The `mkdir` calls for the path `d` of line `k`: none when `d` names no directory. */
  function MkdirCalls(d: Bytes, k: nat, fs: Oracle): (r: seq<Bytes>)
    ensures r == [] <==> DirPortion(d).None?
    ensures DirPortion(d).Some? ==> r[|r| - 1] == DirPortion(d).value || fs.mkdir(k, r[|r| - 1]) == Refused
  {
    match DirPortion(d)
    case None => []
    case Some(dir) => Attempts(dir, p => fs.mkdir(k, p))
  }

  /**
   The work for line `k` once its path is `d` (main.c:177-211). The file is
   opened whether or not `GTCreatePath` gave up, since that returns nothing.
   */
  function Act(d: Bytes, k: nat, fs: Oracle): (a: Action)
    ensures a.Skip? <==> IsParentRef(d)
    ensures a.Write? ==> a.file == d && a.mkdirs == MkdirCalls(d, k, fs)
    ensures a.Write? ==> (a.result.Done? <==> fs.open(k, d))
    ensures a.Write? && a.result.Done? ==> a.result.content == Stub(Classify(d))
  {
    if IsParentRef(d) then Skip
    else Write(MkdirCalls(d, k, fs), d, if fs.open(k, d) then Done(Stub(Classify(d))) else Failed)
  }

  /**
   Every line, and the unterminated text after the last, fits in
   `tmp[MAX_PATH]` together with its terminator; the loop does not check this.
   */
  predicate Fits(buf: Bytes) {
    var s := Scan(buf, []);
    (forall i | 0 <= i < |s.lines| :: |s.lines[i]| < MaxPath) && |s.tail| <= MaxPath
  }

  /** Lines the loop can copy into the scratch buffer. */
  predicate Storable(lines: seq<Bytes>) {
    forall j | 0 <= j < |lines| :: IsLineText(lines[j]) && |lines[j]| < MaxPath
  }

  /** Each non-blank line among the first `|paths|` is read from its own bytes. */
  ghost predicate ReadsOwnBytes(lines: seq<Bytes>, paths: seq<Bytes>)
    requires |paths| <= |lines|
  {
    forall j | 0 <= j < |paths| && lines[j] != [] :: paths[j] == Target(lines[j])
  }

  /**
   Each blank line among the first `|paths|` but the first repeats the path
   before it after a drive line or a blank line, and reads as empty after any
   other line (k is the line before j).
   */
  ghost predicate ReadsBlankAsQuirk(lines: seq<Bytes>, paths: seq<Bytes>)
    requires |paths| <= |lines|
  {
    forall k, j | 0 <= k < j < |paths| && j == k + 1 && lines[j] == [] ::
      paths[j] == if lines[k] == [] || HasDrivePrefix(lines[k]) then paths[k] else []
  }

  lemma {:induction false} ExtendPaths(lines: seq<Bytes>, paths: seq<Bytes>, d: Bytes)
    requires |paths| < |lines| && ReadsOwnBytes(lines, paths) && ReadsBlankAsQuirk(lines, paths)
    requires lines[|paths|] != [] ==> d == Target(lines[|paths|])
    requires 0 < |paths| && lines[|paths|] == [] ==>
               d == if lines[|paths| - 1] == [] || HasDrivePrefix(lines[|paths| - 1]) then paths[|paths| - 1] else []
    ensures ReadsOwnBytes(lines, paths + [d]) && ReadsBlankAsQuirk(lines, paths + [d])
  {
    var i, paths' := |paths|, paths + [d];
    assert forall j | 0 <= j < i :: paths'[j] == paths[j];
    forall j | 0 <= j < i + 1 && lines[j] != []
      ensures paths'[j] == Target(lines[j])
    {
      if j < i {
        assert paths'[j] == paths[j];
      }
    }
    forall k, j | 0 <= k < j < i + 1 && j == k + 1 && lines[j] == []
      ensures paths'[j] == if lines[k] == [] || HasDrivePrefix(lines[k]) then paths'[k] else []
    {
      if j < i {
        assert paths'[j] == paths[j] && paths'[k] == paths[k];
      }
    }
  }

  /**
   The state of the loop after the first `|paths|` lines: `tmp` is the scratch
   buffer, `before` what it was before the last line was stored.
   */
  ghost predicate Reading(lines: seq<Bytes>, init: Bytes, paths: seq<Bytes>, tmp: Bytes, before: Bytes) {
    && |paths| <= |lines| && StaleOk(tmp) && StaleOk(before)
    && (|paths| == 0 ==> tmp == init)
    && (|paths| > 0 ==>
          && IsLineText(lines[|paths| - 1]) && |lines[|paths| - 1]| < MaxPath
          && tmp == Store(before, lines[|paths| - 1])
          && paths[|paths| - 1] == LinePath(tmp))
    && (|paths| > 0 && lines[0] == [] ==> StaleOk(init) && paths[0] == LinePath(Store(init, [])))
    && ReadsOwnBytes(lines, paths) && ReadsBlankAsQuirk(lines, paths)
  }

  /** One turn of the loop keeps the state description. */
  lemma ReadingStep(lines: seq<Bytes>, init: Bytes, paths: seq<Bytes>, tmp: Bytes, before: Bytes)
    requires Storable(lines) && StaleOk(init) && |paths| < |lines| && Reading(lines, init, paths, tmp, before)
    ensures StaleOk(tmp) && Readable(Store(tmp, lines[|paths|]))
    ensures Reading(lines, init, paths + [LinePath(Store(tmp, lines[|paths|]))], Store(tmp, lines[|paths|]), tmp)
  {
    var i, line := |paths|, lines[|paths|];
    var next := Store(tmp, line);
    var d := LinePath(next);
    var paths' := paths + [d];
    assert StaleOk(next) by {
      StoreStep(tmp, line);
    }
    assert ReadsOwnBytes(lines, paths') && ReadsBlankAsQuirk(lines, paths') by {
      StoreStep(tmp, line);
      if line == [] && i > 0 {
        // what the blank line reads depends on the line stored before it
        StoreStep(before, lines[i - 1]);
      }
      ExtendPaths(lines, paths, d);
    }
    assert paths'[i] == d && |paths'| == i + 1;
    assert i > 0 ==> paths'[0] == paths[0];
    assert i == 0 && line == [] ==> d == LinePath(Store(init, []));
  }

  /**
   The paths the loop of `main` reads from its scratch buffer, one per line,
   with `init` the buffer's uninitialised contents.
   */
  method ReadPaths(lines: seq<Bytes>, init: Bytes) returns (paths: seq<Bytes>)
    requires Storable(lines) && StaleOk(init)
    ensures |paths| == |lines|
    // a non-blank line is read from its own bytes
    ensures forall j | 0 <= j < |lines| && lines[j] != [] :: paths[j] == Target(lines[j])
    // a blank first line reads whatever the buffer held
    ensures |lines| > 0 && lines[0] == [] ==> paths[0] == LinePath(Store(init, []))
    // a blank line repeats the path before it after a drive line or a blank line, else reads as empty
    // (k is the line before j)
    ensures forall k, j | 0 <= k < j < |lines| && j == k + 1 && lines[j] == [] ::
              paths[j] == if lines[k] == [] || HasDrivePrefix(lines[k]) then paths[k] else []
  {
    var tmp := init;
    ghost var before := init;
    paths := [];
    while |paths| < |lines|
      invariant Reading(lines, init, paths, tmp, before)
      decreases |lines| - |paths|
    {
      ReadingStep(lines, init, paths, tmp, before);
      var next := Store(tmp, lines[|paths|]);
      before, tmp, paths := tmp, next, paths + [LinePath(next)];
    }
  }

  /** The whole run: each line's path, then the work for it. */
  method Run(buf: Bytes, init: Bytes, fs: Oracle) returns (acts: seq<Action>, paths: seq<Bytes>)
    requires Fits(buf) && StaleOk(init)
    ensures |acts| == |paths| == |Tokenize(buf)|
    ensures forall j | 0 <= j < |acts| :: acts[j] == Act(paths[j], j, fs)
    ensures forall j | 0 <= j < |paths| && Tokenize(buf)[j] != [] :: paths[j] == Target(Tokenize(buf)[j])
    // a blank first line reads whatever the uninitialised buffer holds
    ensures |paths| > 0 && Tokenize(buf)[0] == [] ==> paths[0] == LinePath(Store(init, []))
    ensures forall k, j | 0 <= k < j < |paths| && j == k + 1 && Tokenize(buf)[j] == [] ::
              paths[j] == if Tokenize(buf)[k] == [] || HasDrivePrefix(Tokenize(buf)[k]) then paths[k] else []
    // the program and the corrected run agree on every non-blank line
    ensures forall j | 0 <= j < |acts| && Tokenize(buf)[j] != [] :: acts[j] == RunSkippingBlank(buf, fs)[j]
    ensures (forall j | 0 <= j < |acts| :: Tokenize(buf)[j] != []) ==> acts == RunSkippingBlank(buf, fs)
  {
    var lines := Tokenize(buf);
    assert Storable(lines);
    paths := ReadPaths(lines, init);
    acts := seq(|paths|, j requires 0 <= j < |paths| => Act(paths[j], j, fs));
    ghost var fixed := RunSkippingBlank(buf, fs);
    forall j | 0 <= j < |acts| && lines[j] != [] ensures acts[j] == fixed[j] {
      assert paths[j] == Target(lines[j]);
    }
  }

  // ---------------------------------------------------------------------------
  // Blank lines handled as intended

  /** The run with blank lines skipped, as evidently intended: no scratch buffer is read. */
  function RunSkippingBlank(buf: Bytes, fs: Oracle): (acts: seq<Action>)
    ensures |acts| == |Tokenize(buf)|
    ensures forall j | 0 <= j < |acts| ::
              acts[j].Write? <==> Tokenize(buf)[j] != [] && Normalize(Tokenize(buf)[j]).Some?
    ensures forall j | 0 <= j < |acts| ::
              acts[j].Write? ==> acts[j].file == Normalize(Tokenize(buf)[j]).value
  {
    var lines := Tokenize(buf);
    seq(|lines|, j requires 0 <= j < |lines| => if lines[j] == [] then Skip else Act(Target(lines[j]), j, fs))
  }

  // ---------------------------------------------------------------------------
  // Properties of the per-line work

  /**
   The open is attempted whatever `mkdir` reported: under two filesystems
   that differ only in `mkdir`, a line skips, opens and writes the same.
   */
  lemma OpenIgnoresMkdir(d: Bytes, k: nat, fs1: Oracle, fs2: Oracle)
    requires fs1.open == fs2.open
    ensures Act(d, k, fs1).Skip? == Act(d, k, fs2).Skip?
    ensures Act(d, k, fs1).Write? ==>
              Act(d, k, fs1).file == Act(d, k, fs2).file && Act(d, k, fs1).result == Act(d, k, fs2).result
  {
    assert fs1.open(k, d) == fs2.open(k, d);
  }

  /** The files a list of actions opens for writing, whether or not `fopen` succeeds. */
  function Opened(acts: seq<Action>): (files: set<Bytes>)
    ensures forall j | 0 <= j < |acts| && acts[j].Write? :: acts[j].file in files
    ensures forall f | f in files :: exists j | 0 <= j < |acts| :: acts[j].Write? && acts[j].file == f
  {
    set j | 0 <= j < |acts| && acts[j].Write? :: acts[j].file
  }

  /** The normal forms of the non-blank lines that are not skipped. */
  function NormalForms(lines: seq<Bytes>): (forms: set<Bytes>)
    ensures forall j | 0 <= j < |lines| && lines[j] != [] && Normalize(lines[j]).Some? :: Normalize(lines[j]).value in forms
    ensures forall f | f in forms ::
              exists j | 0 <= j < |lines| :: lines[j] != [] && Normalize(lines[j]).Some? && Normalize(lines[j]).value == f
  {
    set j | 0 <= j < |lines| && lines[j] != [] && Normalize(lines[j]).Some? :: Normalize(lines[j]).value
  }

  /** With blank lines skipped, the files opened are exactly the normal forms of the lines. */
  lemma OpenedAreNormalForms(buf: Bytes, fs: Oracle)
    ensures Opened(RunSkippingBlank(buf, fs)) == NormalForms(Tokenize(buf))
  {
    var acts, lines := RunSkippingBlank(buf, fs), Tokenize(buf);
    forall f | f in Opened(acts)
      ensures f in NormalForms(lines)
    {
      var j :| 0 <= j < |acts| && acts[j].Write? && acts[j].file == f;
      assert lines[j] != [] && Normalize(lines[j]).Some?;
    }
    forall f | f in NormalForms(lines)
      ensures f in Opened(acts)
    {
      var j :| 0 <= j < |lines| && lines[j] != [] && Normalize(lines[j]).Some? && Normalize(lines[j]).value == f;
      assert acts[j].Write?;
    }
  }

  // ---------------------------------------------------------------------------
  // Examples

  lemma ActOpened(d: Bytes, k: nat, fs: Oracle)
    requires !IsParentRef(d) && fs.open(k, d)
    ensures Act(d, k, fs) == Write(MkdirCalls(d, k, fs), d, Done(Stub(Classify(d))))
  {
  }

  /**
   A drive line followed by a blank line, both ending in CR LF: the program
   reads the drive line's path twice, the corrected run skips the blank line.
   */
  lemma BlankAfterDriveLineExample(line: Bytes, fs: Oracle)
    requires IsLineText(line) && |line| < MaxPath && HasDrivePrefix(line)
    ensures Tokenize(JoinCrLf([line, []])) == [line, []]
    ensures Fits(JoinCrLf([line, []]))
    ensures RunSkippingBlank(JoinCrLf([line, []]), fs)[1] == Skip
    ensures !IsParentRef(Target(line)) ==> Act(Target(line), 1, fs).Write?
  {
    CrLfRoundTrip([line, []]);
  }

  /**
   The program on a drive line followed by a blank line: the blank line opens
   and writes the drive line's file a second time, where the corrected run
   skips it.
   */
  method BlankAfterDriveLineRun(line: Bytes, init: Bytes, fs: Oracle) returns (acts: seq<Action>)
    requires IsLineText(line) && |line| < MaxPath && HasDrivePrefix(line) && !IsParentRef(Target(line))
    requires StaleOk(init)
    ensures |acts| == 2 && acts[0] == Act(Target(line), 0, fs) && acts[0].Write? && acts[0].file == Target(line)
    ensures |acts| == 2 && acts[1] == Act(Target(line), 1, fs) && acts[1].Write? && acts[1].file == Target(line)
    ensures |RunSkippingBlank(JoinCrLf([line, []]), fs)| == 2 && RunSkippingBlank(JoinCrLf([line, []]), fs)[1] == Skip
  {
    var buf := JoinCrLf([line, []]);
    BlankAfterDriveLineExample(line, fs);
    var paths;
    acts, paths := Run(buf, init, fs);
    assert Tokenize(buf)[1] == [] && Tokenize(buf)[0] == line;
    assert paths[1] == paths[0];
  }

  /** The bytes of `C:\foo\bar.c` once the drive prefix is stripped. */
  lemma FooBarTarget()
    ensures Target(FromString("C:\\foo\\bar.c")) == FromString("foo\\bar.c")
  {
    var line, d := FromString("C:\\foo\\bar.c"), FromString("foo\\bar.c");
    assert HasDrivePrefix(line);
    assert line[3..] == d;
  }

  /** `foo\bar.c` lies in `foo`. */
  lemma FooBarDir()
    ensures DirPortion(FromString("foo\\bar.c")) == Some(FromString("foo"))
  {
    DirPortionUnique(FromString("foo\\bar.c"), FromString("foo"), BACKSLASH, FromString("bar.c"));
  }

  /** `foo` is created with a single call. */
  lemma FooBarMkdirs(k: nat, fs: Oracle)
    ensures MkdirCalls(FromString("foo\\bar.c"), k, fs) == [FromString("foo")]
  {
    var foo := FromString("foo");
    assert SLASH !in foo[0..] && BACKSLASH !in foo[0..] by {
      assert foo[0..] == foo == [0x66, 0x6F, 0x6F];
    }
    FooBarDir();
    NoSeparatorOneCall(foo, 0, p => fs.mkdir(k, p));
  }

  lemma FooBarIsC()
    ensures Classify(FromString("foo\\bar.c")) == C
  {
    var d := FromString("foo\\bar.c");
    assert d == FromString("foo\\bar") + [DOT] + [0x63];
    SuffixIsExtension(FromString("foo\\bar"), [0x63]);
    assert [DOT] + [0x63] == DotC;
  }

  /** `C:\foo\bar.c` creates `foo` and writes `foo\bar.c` with a C comment. */
  lemma DriveExample(k: nat, fs: Oracle)
    requires fs.open(k, FromString("foo\\bar.c"))
    ensures Act(Target(FromString("C:\\foo\\bar.c")), k, fs)
         == Write([FromString("foo")], FromString("foo\\bar.c"), Done(Stub(C)))
  {
    var d := FromString("foo\\bar.c");
    assert !IsParentRef(d) by {
      assert d[0] == 0x66;
    }
    FooBarTarget();
    FooBarMkdirs(k, fs);
    FooBarIsC();
    ActOpened(d, k, fs);
  }

  /** `../etc/passwd` does nothing at all. */
  lemma ParentExample(k: nat, fs: Oracle)
    ensures Act(Target(FromString("../etc/passwd")), k, fs) == Skip
  {
    ParentRefSkipped();
  }

  lemma NotesIsUnknown()
    ensures Classify(FromString("notes.txt")) == Unknown
  {
    var d, txt := FromString("notes.txt"), FromString("txt");
    assert txt == [0x74, 0x78, 0x74];
    assert d == FromString("notes") + [DOT] + txt;
    SuffixIsExtension(FromString("notes"), txt);
    ClassifyByTable(d);
    var e := LowerAll([DOT] + txt);
    assert e[0] == DOT && e[1] == 0x74 && e[2] == 0x78 && e[3] == 0x74;
    assert e[1] != DotC[1] && e[1] != DotH[1] && e[1] != DotAsm[1];
    assert e != DotC && e != DotCpp && e != DotCs && e != DotH && e != DotHpp && e != DotAsm;
  }

  /** `notes.txt` has no directory and no prefix to strip. */
  lemma NotesTarget(k: nat, fs: Oracle)
    ensures Target(FromString("notes.txt")) == FromString("notes.txt")
    ensures !IsParentRef(FromString("notes.txt"))
    ensures MkdirCalls(FromString("notes.txt"), k, fs) == []
  {
    var d := FromString("notes.txt");
    assert d == [0x6E, 0x6F, 0x74, 0x65, 0x73, DOT, 0x74, 0x78, 0x74];
    assert !HasDrivePrefix(d) && !IsSep(d[0]);
    NoSeparatorNoDir();
  }

  /** `notes.txt` has no directory to create and gets the bare attribution line. */
  lemma PlainFileExample(k: nat, fs: Oracle)
    requires fs.open(k, FromString("notes.txt"))
    ensures Act(Target(FromString("notes.txt")), k, fs) == Write([], FromString("notes.txt"), Done(Attribution))
  {
    var d := FromString("notes.txt");
    NotesTarget(k, fs);
    NotesIsUnknown();
    assert Stub(Unknown) == Attribution by {
      assert CommentPrefix(Unknown) == [];
    }
    ActOpened(d, k, fs);
  }
}
