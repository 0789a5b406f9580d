# gentree in Dafny

gentree reads a text file that lists one path per line and, for each line,
creates the directories on the way and writes a one-line stub file whose
comment syntax depends on the file's extension. This project models the core
of `main.c`:

- **Encoding**: the `IsUTF16` byte-order-mark test (section 3.2 of RFC 2781:
  U+FEFF serialised little-endian is FF FE). The two bytes the test reads from
  the stack when the file is shorter are an explicit input.
- **Tokenizer**: the parse loop seen as a line tokenizer over the decoded,
  NUL-terminated buffer. Bytes with the high bit set (negative as a signed
  `char`) are dropped. CR or LF ends a line, and one LF right after a break is
  swallowed. The first NUL ends the input, and text after the last break is
  never processed.
- **Paths**: the fixed scratch buffer `tmp[MAX_PATH]`, modelled as a 4096-byte
  sequence whose stale contents are carried from line to line. It also covers
  the drive-prefix and leading-separator stripping, the `..` guard and the
  directory portion: everything before the last separator, whose last
  component the final `mkdir` of `GTCreatePath` creates.
- **CreatePath**: `GTCreatePath` as the sequence of `mkdir` calls it makes.
  `mkdir` is an oracle that answers Made, Exists (EEXIST) or Refused.
- **FileType**: `GTGetFileType` and the stub text written into each file.
- **Gentree**: the whole loop. For line k, the filesystem is an oracle that
  says what `mkdir` reports and whether `fopen` succeeds. Each line yields one
  action: a skip, or the `mkdir` calls, the file opened and its content. A
  corrected run that skips blank lines sits beside the program as written.

The modules import one another in that order. The shared types live in
`basics.dfy`: bytes, the ASCII constants, case folding and `strrchr`.

### Where the code departs from its evident intent (the model follows the code)

- Blank lines look meant to be skipped silently. The code instead normalises
  a blank line from the stale scratch buffer:
  - after a line with a drive prefix (`C:\...`), it repeats that line's file;
  - after a blank line, it repeats the previous blank line's path;
  - after any other line, it calls `fopen("")`.
- The `\n` test after a break looks meant to consume the `\n` of a CR LF pair.
  It also swallows a `\n` right after a `\n`, so `a\n\nb\n` yields two lines,
  not three.
- The LF test looks at the raw next byte, before the high-bit filter, so
  `\r`, 0x80, `\n` makes two line breaks.
- A refused `mkdir` does not stop the line: `GTCreatePath` returns nothing, so
  the file is opened anyway.
- `GTCreatePath` runs for every line, so a directory shared by several lines
  is asked for again each time.
- A file shorter than two bytes ought to count as single-byte. The code tests
  uninitialised stack bytes in that case.

## Model

| member | source | states |
|---|---|---|
| Ascii.LastIndexOf | main.c:58 | None exactly when the byte does not occur; otherwise an index holding the byte with no occurrence after it |
| Ascii.LastDotIgnoresCase | main.c:58-71 | folding case leaves the position of the last dot unchanged |
| Tokenizer.Scan | main.c:159-217 | every line produced, and the unterminated tail, is line text (no NUL, CR, LF or high byte); no more lines than input bytes |
| Tokenizer.Tokenize | main.c:159-217 | the lines handed to the normaliser contain no NUL, CR, LF or high-bit byte |
| Tokenizer.ScanPrefix | main.c:159-165 | over a run with no NUL and no break the loop only accumulates: it ends the run holding the run's visible bytes appended to the line |
| Tokenizer.ScanSplit | main.c:159-216 | a run of bytes then a break yields one line made of the run's visible bytes, then scanning resumes past the break and at most one LF |
| Tokenizer.StopsAtNul | main.c:159 | nothing after the first NUL affects the result |
| Tokenizer.NoBreakNoLine | main.c:159-218 | text with no CR or LF produces no line |
| Tokenizer.UnterminatedTailIgnored | main.c:159-218 | appending text without a break adds no line, so the last line needs its terminator |
| Tokenizer.HighPrefixIgnored | main.c:160-163 | bytes with the high bit set in front change nothing |
| Tokenizer.Utf8BomIgnored | main.c:160-163 | a UTF-8 byte-order mark left by transcoding is dropped |
| Tokenizer.CrLfRoundTrip | main.c:165-213 | lines joined with CR LF, blank ones included, are read back exactly with nothing left over |
| Tokenizer.LfRoundTrip | main.c:166-213 | lines joined with LF are read back exactly, with nothing left over, when no line after the first is blank |
| Tokenizer.LfLineCount | main.c:166-213 | LF-joined lines never read back as more lines than were joined, and as fewer once a line after the first is blank |
| Tokenizer.LfBlankLineLost | main.c:166-213 | the converse of the LF round trip: with a blank line after the first, the lines are not read back |
| Tokenizer.BreakPairs | main.c:166-213 | CR LF and LF LF each end one line; LF CR and CR CR each end two |
| Tokenizer.SwallowSeesRawByte | main.c:160-213 | a high byte between CR and LF makes two breaks, unlike filtering first |
| Paths.EffectiveStart | main.c:168-174 | the path starts at 3 exactly for a drive prefix, at 1 exactly for a leading separator otherwise, else at 0 |
| Paths.Target | main.c:168-174 | the path is a suffix of the line |
| Paths.Normalize | main.c:168-177 | the line is skipped exactly when what is left after stripping starts with `..`; a kept path is the line less its `EffectiveStart` leading bytes |
| Paths.NormalizeStripsDrive | main.c:168-169 | round trip: prefixing `X:` and a separator to a path is undone |
| Paths.NormalizeStripsSeparator | main.c:170-171 | round trip: one leading separator is undone unless a drive prefix then shows at index 1 |
| Paths.NormalizeSkipsDriveParent | main.c:168-177 | a drive prefix in front of a `..` path is stripped and the line skipped |
| Paths.NormalizeSkipsSeparatorParent | main.c:170-177 | a separator in front of a `..` path is stripped and the line skipped |
| Paths.NormalizeKeepsPlain | main.c:172-177 | a path with nothing to strip and no leading `..` is kept as it is |
| Paths.ParentRefSkipped | main.c:177 | `../etc/passwd` is skipped |
| Paths.StrippedParentRefSkipped | main.c:170-177 | the `..` guard applies after stripping: `/..foo` is skipped |
| Paths.MidPathParentKept | main.c:177 | `..` inside a path is let through |
| Paths.OneSeparatorOnly | main.c:170-171 | only one leading separator is stripped: `//x` becomes `/x` |
| Paths.DrivePrefixOnly | main.c:168-169 | only the drive prefix is stripped: `C:\\x` becomes `\x` |
| Paths.Store | main.c:157-167 | storing a line writes the line and a NUL and keeps every later byte; the result can be read as a line |
| Paths.CString | main.c:177-192 | the C string at an offset ends at the first NUL from there and contains none |
| Paths.LinePath | main.c:168-174 | the path read from the buffer contains no NUL |
| Paths.CStringOfStored | main.c:165-167 | a C string read inside a stored line is the rest of that line |
| Paths.LinePathOfLine | main.c:165-174 | a non-blank line is read from its own bytes, whatever the buffer held |
| Paths.LinePathOfBlank | main.c:166-174 | a blank line is read from the old bytes 1 and 2: the C string from 3 when they look like a drive tail, else the empty path |
| Paths.BlankRepeatsDriveLine | main.c:166-169 | a blank line after a drive line reads that line's path again |
| Paths.BlankAfterPlainLine | main.c:166-174 | a blank line after any other non-blank line reads the empty path |
| Paths.StoreStep | main.c:165-174 | one turn of the loop: the path a line reads, and the path a blank line stored next would read |
| Paths.DirPortion | main.c:178-185 | None exactly without separators; otherwise the prefix before the last `/` if there is one, else before the last `\` |
| Paths.DirPortionUnique | main.c:178-185 | any split meeting that description is the one chosen |
| Paths.SlashBeforeBackslash | main.c:179-180 | a `\` after the last `/` is not where the path is cut |
| Paths.LastBackslashSplits | main.c:180-185 | without a `/`, the last `\` splits |
| Paths.NoSeparatorNoDir | main.c:181 | `notes.txt` has no directory portion |
| CreatePath.Walk | main.c:80-97 | every call but the last is a boundary prefix that was not refused; the last is the whole string or the refused prefix |
| CreatePath.Attempts | main.c:77-99 | the same, for the whole walk of `GTCreatePath` |
| CreatePath.BoundaryPrefixes | main.c:82-84 | every prefix that ends at a boundary, shortest first, each once |
| CreatePath.FirstRefusal | main.c:85-92 | the first refused prefix, with none refused before it |
| CreatePath.WalkFollowsPrefixes | main.c:80-97 | the loop calls the boundary prefixes in order, then the whole string, cut after the first refusal |
| CreatePath.AttemptsAsDescribed | main.c:77-99 | `GTCreatePath` makes exactly the calls of that reference description |
| CreatePath.AllAttemptedWithoutRefusal | main.c:80-97 | with no refusal every boundary prefix is created, then the whole string |
| CreatePath.OnlyRefusalsMatter | main.c:85-88 | EEXIST never stops the walk: oracles refusing the same prefixes give the same calls |
| CreatePath.NoSeparatorOneCall | main.c:80-97 | a string without separators gets the single final call |
| CreatePath.RunsOfSeparators | main.c:82-84 | a leading separator gets no call and a run of separators gets one |
| CreatePath.RefusalStopsWalk | main.c:85-92 | after a refusal neither later prefixes nor the whole string are tried |
| FileType.Extension | main.c:58 | None exactly without a dot; otherwise the suffix from the last dot, with no dot after its first byte |
| FileType.Classify | main.c:57-75 | Error exactly when the path has no dot |
| FileType.ClassifyExtension | main.c:63-74 | a suffix from a dot is never classified Error |
| FileType.ClassifyByTable | main.c:57-75 | the type is the table entry for the lower-cased suffix from the last dot |
| FileType.ClassifyBySuffix | main.c:58-74 | only the text after the last dot matters |
| FileType.SuffixIsExtension | main.c:58 | the extension is the suffix from the last dot |
| FileType.ExtensionIgnoresCase | main.c:58-71 | paths equal up to case have extensions equal up to case |
| FileType.ClassifyIgnoresCase | main.c:64-71 | paths equal up to case have the same type |
| FileType.DotInDirectory | main.c:58 | a dot in a directory name counts: `lib.c/Makefile` is Unknown |
| FileType.NoDotIsError | main.c:59-61 | `Makefile` is Error |
| FileType.UpperCaseExtensions | main.c:64-71 | `.CPP` is C and `.ASM` is assembly, whatever comes before them |
| FileType.CommentPrefix | main.c:193-202 | C and assembly get a comment opener ending in a space and holding no LF; Unknown and Error get none |
| FileType.Stub | main.c:193-204 | every stub ends with the attribution line, which ends in LF |
| FileType.StubDeterminedByStyle | main.c:193-204 | two types give the same stub exactly when equal or both without a comment |
| Encoding.IsUtf16 | main.c:104-109 | for files of two bytes or more, true exactly when they start FF FE; for an empty file, exactly when the stack bytes are FF FE |
| Encoding.ReadTwo | main.c:105-106 | byte i comes from the file when it has one, else from the stack |
| Encoding.IsUtf16IffLeBom | main.c:104-109 | for files of two bytes or more, UTF-16 exactly when the first unit read little-endian is U+FEFF |
| Encoding.ShortInputReadsStale | main.c:105-108 | for shorter files, the stack bytes decide |
| Encoding.OneByteFileSeenAsUtf16 | main.c:105-108 | the one-byte file FF is taken for UTF-16 when the stack held FE |
| Encoding.Detect | main.c:104-109 | UTF-16 exactly when the file has at least two bytes and they form the little-endian BOM |
| Encoding.DetectAgreesOnLongInput | main.c:104-109 | the corrected test agrees with the original on files of two bytes or more |
| Encoding.OtherMarksNotUtf16 | main.c:108 | FE FF and the UTF-8 mark are not taken for UTF-16, FF FE is |
| Gentree.MkdirCalls | main.c:178-188 | no calls exactly when the path has no separator; the last call is the directory portion unless a refusal ended the walk |
| Gentree.Act | main.c:177-211 | skip exactly for a `..` path; otherwise open that path, succeeding exactly when the oracle says so, and write the stub for its type |
| Gentree.ReadPaths | main.c:157-218 | non-blank lines are read from their own bytes; a blank line repeats the previous path after a drive line or a blank line and reads as empty otherwise |
| Gentree.Run | main.c:156-218 | one action per line, the work for that line's path; non-blank lines are read from their own bytes, a blank first line from the uninitialised buffer, a later blank line as in `ReadPaths`; it agrees with the corrected run on every non-blank line, and entirely when no line is blank |
| Gentree.RunSkippingBlank | main.c:166-177 | a line writes exactly when it is non-blank and not skipped, and writes its normal form |
| Gentree.OpenIgnoresMkdir | main.c:186-191 | whatever `mkdir` reports, a line skips, opens and writes the same |
| Gentree.OpenedAreNormalForms | main.c:166-211 | with blank lines skipped, the files opened are exactly the normal forms of the lines |
| Gentree.BlankAfterDriveLineExample | main.c:166-177 | a drive line then a blank line, CR LF terminated, fits and is read as those two lines; the corrected run skips the second |
| Gentree.BlankAfterDriveLineRun | main.c:166-177 | the program writes the drive line's file for both lines |
| Gentree.ActOpened | main.c:190-204 | a line that is not skipped and opens writes the stub for its type |
| Gentree.DriveExample | main.c:168-204 | `C:\foo\bar.c` creates `foo` and writes `foo\bar.c` with a C comment |
| Gentree.ParentExample | main.c:177 | `../etc/passwd` does nothing |
| Gentree.PlainFileExample | main.c:172-204 | `notes.txt` creates no directory and gets the bare attribution line |

## Left out

- Transcoding UTF-16 input to a narrow string (`convert_from_wstring`, main.c:34-48, 142-149) depends on the C library's locale. `Run` takes the decoded buffer; only the test that selects the branch is modelled.
- File reading, `fseek`/`ftell`, `printf` and the banner are left out as I/O. `mkdir` and `fopen` are oracles indexed by line number and path, and the model records the calls, not their side effects.
- `GTAllocOrDie` (main.c:21-30) is not modelled: its only other outcome is an abort on allocation failure.
- The argument-count check and exit codes (main.c:111-129) are left out as process glue.
- The Windows build is not modelled. It uses `MAX_PATH` 260, `_mkdir` without a mode, and text-mode `fopen`, which would turn LF into CR LF in the stub.
- Gentree.Run: requires `Fits`, so every line is shorter than 4096 bytes (line and NUL fit in `tmp`). A longer line overruns the stack buffer, which C leaves undefined.
- Gentree.Run: requires `StaleOk` of the uninitialised buffer: if its bytes 1 and 2 read as `:` and a separator, a NUL must follow. Otherwise a blank first line reads past the end of `tmp`.
- The model assumes `char` is signed, as on x86 Linux. Where `char` is unsigned (aarch64 Linux, for one), `*p < 0` at main.c:160 never holds and high bytes are copied into lines instead of dropped.
- Encoding.IsUtf16: the two stack bytes are a parameter, because their value is whatever the stack held.
- The result of the final `mkdir` in `GTCreatePath` is ignored by the code, and the model only records that the call was made.

## Findings

| source | as written | input that shows it | evidently intended | confidence | as-written member | corrected member |
|---|---|---|---|---|---|---|
| main.c:166-177 | a blank line is normalised from the bytes earlier lines left in `tmp` | `C:\foo.c` CR LF CR LF: the blank line opens and rewrites `foo.c`; `a` LF CR: the second line calls `fopen("")` | blank lines produce no action | high; not executed | Gentree.BlankAfterDriveLineRun | Gentree.RunSkippingBlank |
| main.c:104-108 | for a file of 0 or 1 bytes, `fread` leaves part of `buf` uninitialised and the test reads it | the one-byte file FF, when the stack held FE in `buf[1]` | files shorter than two bytes are single-byte | medium; not executed | Encoding.OneByteFileSeenAsUtf16 | Encoding.Detect |
