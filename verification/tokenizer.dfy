/**
 The parse loop of gentree's `main` (main.c:157-218), seen as a tokenizer: it
 walks the decoded, NUL-terminated buffer, drops bytes with the high bit set,
 ends a line at CR or LF (swallowing one LF right after the break) and stops at
 the first NUL. Text after the last break never becomes a line.
 */
module Tokenizer {

  import opened Ascii

  /** What the loop has seen when it stops: the terminated lines and the unterminated text after them. */
  datatype Scanned = Scanned(lines: seq<Bytes>, tail: Bytes)

  /** The input left after a line break: one LF immediately following it is consumed. */
  function AfterBreak(rest: Bytes): (r: Bytes)
    ensures |r| <= |rest|
    ensures r == rest || (rest[0] == LF && r == rest[1..])
    ensures |rest| > 0 && rest[0] == LF ==> |r| < |rest|
  {
    if |rest| > 0 && rest[0] == LF then rest[1..] else rest
  }

  /**
   The loop from the current position `buf` onwards, with `cur` the line
   accumulated in the scratch buffer so far.
   */
  function Scan(buf: Bytes, cur: Bytes): (r: Scanned)
    requires IsLineText(cur)
    ensures forall i | 0 <= i < |r.lines| :: IsLineText(r.lines[i])
    ensures IsLineText(r.tail)
    ensures |r.lines| <= |buf|
    decreases |buf|
  {
    if |buf| == 0 || buf[0] == NUL then Scanned([], cur)
    else if IsHigh(buf[0]) then Scan(buf[1..], cur)
    else if IsLineBreak(buf[0]) then
      var s := Scan(AfterBreak(buf[1..]), []);
      Scanned([cur] + s.lines, s.tail)
    else Scan(buf[1..], cur + [buf[0]])
  }

  /** The lines the loop hands to the path normaliser, in order. */
  function Tokenize(buf: Bytes): (lines: seq<Bytes>)
    ensures forall i | 0 <= i < |lines| :: IsLineText(lines[i])
  {
    Scan(buf, []).lines
  }

  /** The bytes of `x` the loop copies: all but those with the high bit set. */
  function Visible(x: Bytes): (r: Bytes)
    ensures forall i | 0 <= i < |r| :: r[i] in x && !IsHigh(r[i])
    ensures |r| <= |x|
  {
    if x == [] then []
    else if IsHigh(x[0]) then Visible(x[1..])
    else [x[0]] + Visible(x[1..])
  }

  lemma {:induction false} VisibleOfLineText(x: Bytes)
    requires IsLineText(x)
    ensures Visible(x) == x
  {
    if x != [] {
      VisibleOfLineText(x[1..]);
    }
  }

  /** The visible bytes of a run free of NUL and breaks extend line text to line text. */
  lemma VisibleExtendsLineText(cur: Bytes, x: Bytes)
    requires IsLineText(cur)
    requires forall i | 0 <= i < |x| :: x[i] != NUL && !IsLineBreak(x[i])
    ensures IsLineText(cur + Visible(x))
  {
    var v := Visible(x);
    var w := cur + v;
    forall i | 0 <= i < |w| ensures IsLineByte(w[i]) {
      if i < |cur| {
        assert w[i] == cur[i];
      } else {
        assert w[i] == v[i - |cur|] && v[i - |cur|] in x;
      }
    }
  }

  /** Reading one more byte of a run: it is appended unless its high bit is set. */
  lemma VisibleStep(cur: Bytes, x: Bytes)
    requires x != []
    ensures cur + Visible(x) == (if IsHigh(x[0]) then cur else cur + [x[0]]) + Visible(x[1..])
  {
    var v := Visible(x[1..]);
    if !IsHigh(x[0]) {
      assert Visible(x) == [x[0]] + v;
      assert cur + ([x[0]] + v) == (cur + [x[0]]) + v;
    }
  }

  /**
   Over a run free of NUL and breaks the loop only accumulates: it reaches the
   end of the run with the run's visible bytes appended to the line.
   */
  lemma {:induction false} ScanPrefix(buf: Bytes, j: nat, cur: Bytes)
    requires IsLineText(cur)
    requires j <= |buf|
    requires forall i | 0 <= i < j :: buf[i] != NUL && !IsLineBreak(buf[i])
    ensures IsLineText(cur + Visible(buf[..j]))
    ensures Scan(buf, cur) == Scan(buf[j..], cur + Visible(buf[..j]))
    decreases j
  {
    var x := buf[..j];
    assert forall i | 0 <= i < |x| :: x[i] != NUL && !IsLineBreak(x[i]) by {
      forall i | 0 <= i < |x| ensures x[i] != NUL && !IsLineBreak(x[i]) {
        assert x[i] == buf[i];
      }
    }
    VisibleExtendsLineText(cur, x);
    if j == 0 {
      assert buf[j..] == buf && x == [];
      assert cur + Visible(x) == cur;
    } else {
      var c := if IsHigh(buf[0]) then cur else cur + [buf[0]];
      var tail := buf[1..];
      assert step: Scan(buf, cur) == Scan(tail, c) && IsLineText(c) by {
        assert buf[0] != NUL && !IsLineBreak(buf[0]);
      }
      assert forall i | 0 <= i < j - 1 :: tail[i] != NUL && !IsLineBreak(tail[i]) by {
        forall i | 0 <= i < j - 1 ensures tail[i] != NUL && !IsLineBreak(tail[i]) {
          assert tail[i] == buf[i + 1];
        }
      }
      ScanPrefix(tail, j - 1, c);
      assert tail[j - 1..] == buf[j..];
      assert cur + Visible(x) == c + Visible(tail[..j - 1]) by {
        assert x[0] == buf[0] && x[1..] == tail[..j - 1];
        VisibleStep(cur, x);
      }
    }
  }

  /**
   One step of the reference reading: when `buf[k]` is the first break and no
   NUL comes before it, the loop yields the line `cur` followed by the visible
   bytes of `buf[..k]`, and resumes after the break (less one swallowed LF).
   */
  lemma ScanSplit(buf: Bytes, k: nat, cur: Bytes)
    requires IsLineText(cur)
    requires k < |buf| && IsLineBreak(buf[k])
    requires forall i | 0 <= i < k :: buf[i] != NUL && !IsLineBreak(buf[i])
    ensures IsLineText(cur + Visible(buf[..k]))
    ensures Scan(buf, cur)
         == Scanned([cur + Visible(buf[..k])] + Scan(AfterBreak(buf[k + 1..]), []).lines,
                    Scan(AfterBreak(buf[k + 1..]), []).tail)
  {
    ScanPrefix(buf, k, cur);
    var r := buf[k..];
    assert r[0] == buf[k] && r[1..] == buf[k + 1..];
  }

  /** Scanning stops at the first NUL: whatever follows it is never read. */
  lemma {:induction false} StopsAtNul(a: Bytes, b: Bytes, cur: Bytes)
    requires IsLineText(cur)
    ensures Scan(a + [NUL] + b, cur) == Scan(a, cur)
    decreases |a|
  {
    var buf := a + [NUL] + b;
    if a == [] {
      assert buf[0] == NUL;
    } else {
      assert buf[0] == a[0];
      assert buf[1..] == a[1..] + [NUL] + b;
      if a[0] == NUL {
      } else if IsHigh(a[0]) {
        StopsAtNul(a[1..], b, cur);
      } else if IsLineBreak(a[0]) {
        if |a| == 1 {
          assert buf[1..] == [NUL] + b;
          assert AfterBreak(buf[1..]) == [NUL] + b;
          assert AfterBreak(a[1..]) == [];
        } else if a[1] == LF {
          assert AfterBreak(buf[1..]) == a[2..] + [NUL] + b;
          StopsAtNul(a[2..], b, []);
        } else {
          assert AfterBreak(buf[1..]) == a[1..] + [NUL] + b;
          StopsAtNul(a[1..], b, []);
        }
      } else {
        StopsAtNul(a[1..], b, cur + [a[0]]);
      }
    }
  }

  /** Text with no line break yields no line, whatever has been accumulated. */
  lemma {:induction false} NoBreakNoLine(t: Bytes, cur: Bytes)
    requires IsLineText(cur)
    requires forall i | 0 <= i < |t| :: !IsLineBreak(t[i])
    ensures Scan(t, cur).lines == []
    decreases |t|
  {
    if t != [] && t[0] != NUL {
      NoBreakNoLine(t[1..], if IsHigh(t[0]) then cur else cur + [t[0]]);
    }
  }

  /** Appending text without a line break adds no line: an unterminated last line produces no action. */
  lemma {:induction false} UnterminatedTailIgnored(a: Bytes, t: Bytes, cur: Bytes)
    requires IsLineText(cur)
    requires forall i | 0 <= i < |t| :: !IsLineBreak(t[i])
    ensures Scan(a + t, cur).lines == Scan(a, cur).lines
    decreases |a|
  {
    var buf := a + t;
    if a == [] {
      assert buf == t;
      NoBreakNoLine(t, cur);
    } else {
      assert buf[0] == a[0];
      assert buf[1..] == a[1..] + t;
      if a[0] == NUL {
      } else if IsHigh(a[0]) {
        UnterminatedTailIgnored(a[1..], t, cur);
      } else if IsLineBreak(a[0]) {
        if |a| == 1 {
          assert buf[1..] == t;
          assert AfterBreak(buf[1..]) == t;
          assert AfterBreak(a[1..]) == [];
          NoBreakNoLine(t, []);
        } else if a[1] == LF {
          assert AfterBreak(buf[1..]) == a[2..] + t;
          UnterminatedTailIgnored(a[2..], t, []);
        } else {
          assert AfterBreak(buf[1..]) == a[1..] + t;
          UnterminatedTailIgnored(a[1..], t, []);
        }
      } else {
        UnterminatedTailIgnored(a[1..], t, cur + [a[0]]);
      }
    }
  }

  /** Bytes with the high bit set in front of the buffer change nothing. */
  lemma {:induction false} HighPrefixIgnored(h: Bytes, buf: Bytes, cur: Bytes)
    requires IsLineText(cur)
    requires forall i | 0 <= i < |h| :: IsHigh(h[i])
    ensures Scan(h + buf, cur) == Scan(buf, cur)
    decreases |h|
  {
    if h != [] {
      assert (h + buf)[0] == h[0];
      assert (h + buf)[1..] == h[1..] + buf;
      assert IsHigh((h + buf)[0]);
      assert Scan(h + buf, cur) == Scan(h[1..] + buf, cur);
      HighPrefixIgnored(h[1..], buf, cur);
    } else {
      assert h + buf == buf;
    }
  }

  /** U+FEFF written as UTF-8: what the UTF-16 branch's narrow buffer starts with. */
  const Utf8Bom: Bytes := [0xEF, 0xBB, 0xBF]

  /** A byte-order mark surviving transcoding is dropped by the high-bit filter. */
  lemma Utf8BomIgnored(buf: Bytes)
    ensures Tokenize(Utf8Bom + buf) == Tokenize(buf)
  {
    HighPrefixIgnored(Utf8Bom, buf, []);
  }

  /** Lines each followed by CR LF. */
  function JoinCrLf(lines: seq<Bytes>): (buf: Bytes)
    ensures |buf| >= 2 * |lines|
  {
    if lines == [] then [] else lines[0] + [CR, LF] + JoinCrLf(lines[1..])
  }

  /** Lines each followed by LF. */
  function JoinLf(lines: seq<Bytes>): (buf: Bytes)
    ensures |buf| >= |lines|
  {
    if lines == [] then [] else lines[0] + [LF] + JoinLf(lines[1..])
  }

  /** A line of line text, then a break: the loop reads the line back exactly. */
  lemma ScanFirstLine(line: Bytes, t: byte, rest: Bytes)
    requires IsLineText(line) && IsLineBreak(t)
    ensures Scan(line + [t] + rest, [])
         == Scanned([line] + Scan(AfterBreak(rest), []).lines, Scan(AfterBreak(rest), []).tail)
  {
    var buf := line + [t] + rest;
    var k := |line|;
    assert buf[..k] == line && buf[k] == t && buf[k + 1..] == rest;
    ScanSplit(buf, k, []);
    VisibleOfLineText(line);
    assert [] + line == line;
  }

  /** The lines after the first still satisfy a per-line requirement. */
  lemma DropFirst(lines: seq<Bytes>)
    requires lines != []
    requires forall i | 0 <= i < |lines| :: IsLineText(lines[i])
    ensures forall i | 0 <= i < |lines[1..]| :: IsLineText(lines[1..][i])
    ensures lines == [lines[0]] + lines[1..]
  {
    forall i | 0 <= i < |lines[1..]| ensures IsLineText(lines[1..][i]) {
      assert lines[1..][i] == lines[i + 1];
    }
  }

  /** Round trip: CR LF terminated lines, blank ones included, are read back exactly. */
  lemma {:induction false} CrLfRoundTrip(lines: seq<Bytes>)
    requires forall i | 0 <= i < |lines| :: IsLineText(lines[i])
    ensures Scan(JoinCrLf(lines), []) == Scanned(lines, [])
    ensures Tokenize(JoinCrLf(lines)) == lines
  {
    if lines != [] {
      var rest := JoinCrLf(lines[1..]);
      assert JoinCrLf(lines) == lines[0] + [CR] + ([LF] + rest);
      ScanFirstLine(lines[0], CR, [LF] + rest);
      assert AfterBreak([LF] + rest) == rest;
      DropFirst(lines);
      CrLfRoundTrip(lines[1..]);
    }
  }

  /**
   Round trip for LF terminated lines holds only when no line after the first
   is blank: an LF right after a break is swallowed as if it were part of CR LF.
   */
  lemma {:induction false} LfRoundTrip(lines: seq<Bytes>)
    requires forall i | 0 <= i < |lines| :: IsLineText(lines[i])
    requires forall i | 1 <= i < |lines| :: lines[i] != []
    ensures Scan(JoinLf(lines), []) == Scanned(lines, [])
    ensures Tokenize(JoinLf(lines)) == lines
  {
    if lines != [] {
      var rest := JoinLf(lines[1..]);
      ScanFirstLine(lines[0], LF, rest);
      assert AfterBreak(rest) == rest by {
        if |lines| > 1 {
          assert rest == lines[1] + [LF] + JoinLf(lines[2..]);
          assert rest[0] == lines[1][0];
          assert IsLineByte(lines[1][0]);
        }
      }
      DropFirst(lines);
      assert forall i | 1 <= i < |lines[1..]| :: lines[1..][i] != [] by {
        forall i | 1 <= i < |lines[1..]| ensures lines[1..][i] != [] {
          assert lines[1..][i] == lines[i + 1];
        }
      }
      LfRoundTrip(lines[1..]);
    }
  }

  /** A blank second line is lost: its LF is swallowed with the break ending the first. */
  lemma LfStepBlank(lines: seq<Bytes>)
    requires |lines| > 1 && lines[1] == [] && IsLineText(lines[0])
    ensures Tokenize(JoinLf(lines)) == [lines[0]] + Tokenize(JoinLf(lines[2..]))
  {
    var rest := JoinLf(lines[1..]);
    ScanFirstLine(lines[0], LF, rest);
    var tail := lines[1..];
    assert rest == [LF] + JoinLf(lines[2..]) by {
      assert tail[0] == [] && tail[1..] == lines[2..];
    }
  }

  /** Otherwise the first line is read, then the rest from its own start. */
  lemma LfStepPlain(lines: seq<Bytes>)
    requires lines != [] && IsLineText(lines[0])
    requires |lines| > 1 ==> lines[1] != [] && IsLineText(lines[1])
    ensures Tokenize(JoinLf(lines)) == [lines[0]] + Tokenize(JoinLf(lines[1..]))
  {
    var rest := JoinLf(lines[1..]);
    ScanFirstLine(lines[0], LF, rest);
    assert AfterBreak(rest) == rest by {
      if |lines| > 1 {
        assert rest == lines[1] + [LF] + JoinLf(lines[2..]);
        assert rest[0] == lines[1][0];
        assert IsLineByte(lines[1][0]);
      }
    }
  }

  /**
   Counting lines read back from LF terminated lines: never more than were
   joined, and fewer as soon as a line after the first is blank, because the LF
   ending that blank line is swallowed with the break before it.
   */
  lemma {:induction false} LfLineCount(lines: seq<Bytes>)
    requires forall i | 0 <= i < |lines| :: IsLineText(lines[i])
    ensures |Tokenize(JoinLf(lines))| <= |lines|
    ensures (exists i | 1 <= i < |lines| :: lines[i] == []) ==> |Tokenize(JoinLf(lines))| < |lines|
    decreases |lines|
  {
    if lines != [] {
      DropFirst(lines);
      if |lines| > 1 && lines[1] == [] {
        LfStepBlank(lines);
        DropFirst(lines[1..]);
        assert lines[1..][1..] == lines[2..];
        LfLineCount(lines[2..]);
      } else {
        LfStepPlain(lines);
        LfLineCount(lines[1..]);
        if exists i | 1 <= i < |lines| :: lines[i] == [] {
          var i :| 1 <= i < |lines| && lines[i] == [];
          assert i >= 2 && lines[1..][i - 1] == [];
        }
      }
    }
  }

  /** The converse of the LF round trip: a blank line after the first is never read back. */
  lemma LfBlankLineLost(lines: seq<Bytes>)
    requires forall i | 0 <= i < |lines| :: IsLineText(lines[i])
    requires exists i | 1 <= i < |lines| :: lines[i] == []
    ensures Tokenize(JoinLf(lines)) != lines
  {
    LfLineCount(lines);
  }

  /** CR LF and LF LF each end one line; LF CR and CR CR end two. */
  lemma BreakPairs()
    ensures Tokenize([CR, LF]) == [[]]
    ensures Tokenize([LF, LF]) == [[]]
    ensures Tokenize([LF, CR]) == [[], []]
    ensures Tokenize([CR, CR]) == [[], []]
  {
    assert Scan([], []) == Scanned([], []);
    assert Scan([CR], []) == Scanned([[]], []) by {
      assert [CR][1..] == [];
    }
    assert [CR, LF][1..] == [LF];
    assert [LF, LF][1..] == [LF];
    assert [LF, CR][1..] == [CR];
    assert [CR, CR][1..] == [CR];
  }

  /**
   The LF-swallowing test looks at the raw next byte, before the high-bit
   filter: a stray byte between CR and LF makes them two breaks, so filtering
   first and tokenizing afterwards is not the same.
   */
  lemma SwallowSeesRawByte()
    ensures Tokenize([CR, 0x80, LF]) == [[], []]
    ensures Tokenize(Visible([CR, 0x80, LF])) == [[]]
  {
    assert Scan([], []) == Scanned([], []);
    assert Scan([LF], []) == Scanned([[]], []) by {
      assert [LF][1..] == [];
    }
    assert Scan([0x80, LF], []) == Scanned([[]], []) by {
      assert [0x80, LF][1..] == [LF];
    }
    assert Scan([CR, 0x80, LF], []) == Scanned([[], []], []) by {
      assert [CR, 0x80, LF][1..] == [0x80, LF];
      assert AfterBreak([0x80, LF]) == [0x80, LF];
    }
    assert Visible([CR, 0x80, LF]) == [CR, LF] by {
      assert [CR, 0x80, LF][1..] == [0x80, LF];
      assert [0x80, LF][1..] == [LF];
      assert Visible([LF]) == [LF];
    }
    assert Scan([CR, LF], []) == Scanned([[]], []) by {
      assert [CR, LF][1..] == [LF];
      assert AfterBreak([LF]) == [];
    }
  }

}
