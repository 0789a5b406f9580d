/**
 `GTGetFileType` (main.c:57-75) and the stub gentree writes into each file
 (main.c:193-204).
 */
module FileType {

  import opened Optional
  import opened Ascii

  datatype FileType = C | Asm | Unknown | Error

  /** The suffix from the last dot, dot included, as `strrchr(path, '.')` points at it. */
  function Extension(path: Bytes): (r: Option<Bytes>)
    ensures r.None? <==> DOT !in path
    ensures r.Some? ==> 0 < |r.value| <= |path| && r.value[0] == DOT && DOT !in r.value[1..]
    ensures r.Some? ==> r.value == path[|path| - |r.value|..]
  {
    match LastIndexOf(path, DOT)
    case None => None
    case Some(i) =>
      assert path[i..][1..] == path[i + 1..];
      Some(path[i..])
  }

  /** `_stricmp(a, b) == 0`: equal once both are folded to lower case. */
  predicate SameIgnoringCase(a: Bytes, b: Bytes) {
    LowerAll(a) == LowerAll(b)
  }

  const DotC: Bytes := [DOT, 0x63]                   // ".c"
  const DotCpp: Bytes := [DOT, 0x63, 0x70, 0x70]     // ".cpp"
  const DotCs: Bytes := [DOT, 0x63, 0x73]             // ".cs"
  const DotH: Bytes := [DOT, 0x68]                    // ".h"
  const DotHpp: Bytes := [DOT, 0x68, 0x70, 0x70]     // ".hpp"
  const DotAsm: Bytes := [DOT, 0x61, 0x73, 0x6D]     // ".asm"

  /** The C family's extensions, in lower case. */
  const CExtensions: seq<Bytes> := [DotC, DotCpp, DotCs, DotH, DotHpp]

  /** The classification of `GTGetFileType`, tested in the same order. */
  function Classify(path: Bytes): (t: FileType)
    ensures t == Error <==> DOT !in path
  {
    match Extension(path)
    case None => Error
    case Some(ext) => ClassifyExtension(ext)
  }

  /** The comparisons of `GTGetFileType` once a dot has been found. */
  function ClassifyExtension(ext: Bytes): (t: FileType)
    ensures t != Error
  {
    if SameIgnoringCase(ext, DotC) || SameIgnoringCase(ext, DotCpp) || SameIgnoringCase(ext, DotCs)
       || SameIgnoringCase(ext, DotH) || SameIgnoringCase(ext, DotHpp) then C
    else if SameIgnoringCase(ext, DotAsm) then Asm
    else Unknown
  }

  /** The type a folded (lower-case) suffix stands for, read off the table. */
  function TableType(folded: Bytes): FileType {
    if folded in CExtensions then C
    else if folded == DotAsm then Asm
    else Unknown
  }

  /** The table is written in lower case already. */
  lemma TableIsFolded()
    ensures LowerAll(DotC) == DotC && LowerAll(DotCpp) == DotCpp && LowerAll(DotCs) == DotCs
    ensures LowerAll(DotH) == DotH && LowerAll(DotHpp) == DotHpp && LowerAll(DotAsm) == DotAsm
  {
    assert LowerAll(DotC) == DotC;
    assert LowerAll(DotCpp) == DotCpp;
    assert LowerAll(DotCs) == DotCs;
    assert LowerAll(DotH) == DotH;
    assert LowerAll(DotHpp) == DotHpp;
    assert LowerAll(DotAsm) == DotAsm;
  }

  /** The comparisons of `GTGetFileType` amount to a table lookup of the folded extension. */
  lemma ClassifyExtensionByTable(ext: Bytes)
    ensures ClassifyExtension(ext) == TableType(LowerAll(ext))
  {
    TableIsFolded();
  }

  /**
   The table reading of the classifier: with a dot present, the type is the one
   the table gives for the suffix from the last dot, folded to lower case.
   */
  lemma ClassifyByTable(path: Bytes)
    requires DOT in path
    ensures Classify(path) == TableType(LowerAll(Extension(path).value))
  {
    ClassifyExtensionByTable(Extension(path).value);
  }

  /** `.asm` is not one of the C family's extensions. */
  lemma AsmIsNotC()
    ensures DotAsm !in CExtensions
  {
    assert DotAsm[1] != DotCpp[1] && DotAsm[1] != DotHpp[1];
  }

  /** Only the suffix from the last dot matters: anything in front of it can be replaced. */
  lemma ClassifyBySuffix(a: Bytes, b: Bytes, s: Bytes)
    requires DOT !in s
    ensures Classify(a + [DOT] + s) == Classify(b + [DOT] + s)
  {
    SuffixIsExtension(a, s);
    SuffixIsExtension(b, s);
  }

  lemma SuffixIsExtension(a: Bytes, s: Bytes)
    requires DOT !in s
    ensures Extension(a + [DOT] + s) == Some([DOT] + s)
  {
    var p := a + [DOT] + s;
    var e := Extension(p).value;
    assert p[|a|] == DOT;
    assert e == p[|p| - |s| - 1..] == [DOT] + s;
  }

  /** Folding case does not move the last dot, so the folded extensions agree. */
  lemma ExtensionIgnoresCase(p: Bytes, q: Bytes)
    requires LowerAll(p) == LowerAll(q)
    ensures Extension(p).None? <==> Extension(q).None?
    ensures Extension(p).Some? ==> LowerAll(Extension(p).value) == LowerAll(Extension(q).value)
  {
    LastDotIgnoresCase(p);
    LastDotIgnoresCase(q);
    if LastIndexOf(p, DOT).Some? {
      var i := LastIndexOf(p, DOT).value;
      assert LowerAll(p[i..]) == LowerAll(p)[i..];
      assert LowerAll(q[i..]) == LowerAll(q)[i..];
    }
  }

  /** Case never matters: paths equal after folding get the same type. */
  lemma ClassifyIgnoresCase(p: Bytes, q: Bytes)
    requires LowerAll(p) == LowerAll(q)
    ensures Classify(p) == Classify(q)
  {
    ExtensionIgnoresCase(p, q);
  }

  /** The dot may sit in a directory name; the suffix from it then runs on past a separator. */
  lemma DotInDirectory()
    ensures Classify(FromString("lib.c/Makefile")) == Unknown
  {
    var p := FromString("lib.c/Makefile");
    assert p == FromString("lib") + [DOT] + FromString("c/Makefile");
    SuffixIsExtension(FromString("lib"), FromString("c/Makefile"));
    ClassifyByTable(p);
    var ext := LowerAll(Extension(p).value);
    assert |ext| == 11;
  }

  /** Without any dot the type is Error. */
  lemma NoDotIsError()
    ensures Classify(FromString("Makefile")) == Error
  {
    var m := FromString("Makefile");
    assert forall i | 0 <= i < |m| :: m[i] != DOT;
  }

  /** A suffix that starts with the only dot in it is the extension, whatever precedes it. */
  lemma ExtensionOfSuffix(a: Bytes, e: Bytes)
    requires |e| > 0 && e[0] == DOT && DOT !in e[1..]
    ensures Extension(a + e) == Some(e)
  {
    var p := a + e;
    assert p[|a|] == DOT;
    assert p[|a|..] == e;
    assert p[|a| + 1..] == e[1..];
    var r := Extension(p).value;
    assert r == p[|p| - |e|..];
  }

  const UpperCpp: Bytes := [DOT, 0x43, 0x50, 0x50]   // ".CPP"
  const UpperAsm: Bytes := [DOT, 0x41, 0x53, 0x4D]   // ".ASM"

  lemma UpperCppFolds()
    ensures LowerAll(UpperCpp) == DotCpp
  {
  }

  lemma UpperAsmFolds()
    ensures LowerAll(UpperAsm) == DotAsm
  {
  }

  lemma UpperCppIsC(a: Bytes)
    ensures Classify(a + UpperCpp) == C
  {
    assert UpperCpp[1..] == [0x43, 0x50, 0x50];
    ExtensionOfSuffix(a, UpperCpp);
    ClassifyExtensionByTable(UpperCpp);
    UpperCppFolds();
  }

  lemma UpperAsmIsAsm(a: Bytes)
    ensures Classify(a + UpperAsm) == Asm
  {
    assert UpperAsm[1..] == [0x41, 0x53, 0x4D];
    ExtensionOfSuffix(a, UpperAsm);
    ClassifyExtensionByTable(UpperAsm);
    UpperAsmFolds();
    AsmIsNotC();
  }

  /** Upper-case extensions are recognised: `<a>.CPP` is C and `<a>.ASM` is assembly, whatever `<a>` is. */
  lemma UpperCaseExtensions(a: Bytes)
    ensures Classify(a + UpperCpp) == C
    ensures Classify(a + UpperAsm) == Asm
  {
    UpperCppIsC(a);
    UpperAsmIsAsm(a);
  }

  // ---------------------------------------------------------------------------
  // The stub

  /** The line every stub ends with. */
  const Attribution: Bytes := FromString("Generated by gentree (https://github.com/hogsy/gentree)\n")

  /** The comment opener written for each type; Unknown and Error get none. */
  function CommentPrefix(t: FileType): (r: Bytes)
    ensures r == [] <==> t == Unknown || t == Error
    ensures r != [] ==> r[|r| - 1] == 0x20 && LF !in r
  {
    match t
    case C => FromString("// ")
    case Asm => FromString("; ")
    case _ => []
  }

  /** The whole content of a stub file. */
  function Stub(t: FileType): (content: Bytes)
    ensures |content| >= |Attribution| > 0
    ensures content[|content| - |Attribution|..] == Attribution
    ensures content[|content| - 1] == LF
  {
    CommentPrefix(t) + Attribution
  }

  /**
   The stub is determined by the comment style: two types give the same stub
   exactly when they are equal or both write no comment.
   */
  lemma StubDeterminedByStyle(t1: FileType, t2: FileType)
    ensures Stub(t1) == Stub(t2) <==> (t1 == t2 || (t1 in {Unknown, Error} && t2 in {Unknown, Error}))
  {
    if Stub(t1) == Stub(t2) {
      var s := Stub(t1);
      assert CommentPrefix(t1) == s[..|s| - |Attribution|] == CommentPrefix(t2);
      assert FromString("// ") != FromString("; ");
    }
  }
}
