/**
 `GTCreatePath` (main.c:77-99): walk a directory string left to right and call
 `mkdir` on the prefix up to and including each separator that ends a
 component, then on the whole string. `mkdir` is an oracle; the model is the
 sequence of prefixes it is asked to create.
 */
module CreatePath {

  import opened Optional
  import opened Ascii

  /** What one `mkdir` call reports: success, failure with EEXIST, any other failure. */
  datatype MkdirResult = Made | Exists | Refused

  /**
   Position `i` ends a component: it is a separator, not the first byte, and
   not preceded by a separator (a run of separators counts once).
   */
  predicate IsBoundary(path: Bytes, i: int) {
    0 < i < |path| && IsSep(path[i]) && !IsSep(path[i - 1])
  }

  /** A prefix of `path` ending at a boundary, separator included. */
  predicate IsBoundaryPrefix(path: Bytes, p: Bytes) {
    0 < |p| <= |path| && p == path[..|p|] && IsBoundary(path, |p| - 1)
  }

  /**
   The loop of `GTCreatePath` from index `i` on. A refusal other than EEXIST
   ends the walk at once, skipping the final `mkdir` of the whole string.
   */
  function Walk(path: Bytes, i: nat, mkdir: Bytes -> MkdirResult): (r: seq<Bytes>)
    requires i <= |path|
    ensures |r| >= 1
    ensures forall j | 0 <= j < |r| - 1 :: IsBoundaryPrefix(path, r[j]) && |r[j]| > i && mkdir(r[j]) != Refused
    ensures r[|r| - 1] == path || (IsBoundaryPrefix(path, r[|r| - 1]) && |r[|r| - 1]| > i && mkdir(r[|r| - 1]) == Refused)
    decreases |path| - i
  {
    if i == |path| then [path]
    else if IsBoundary(path, i) then
      var p := path[..i + 1];
      if mkdir(p) == Refused then [p] else [p] + Walk(path, i + 1, mkdir)
    else Walk(path, i + 1, mkdir)
  }

  /** The `mkdir` calls `GTCreatePath(dir)` makes, in order. */
  function Attempts(dir: Bytes, mkdir: Bytes -> MkdirResult): (r: seq<Bytes>)
    ensures |r| >= 1
    ensures forall j | 0 <= j < |r| - 1 :: IsBoundaryPrefix(dir, r[j]) && mkdir(r[j]) != Refused
    ensures r[|r| - 1] == dir || (IsBoundaryPrefix(dir, r[|r| - 1]) && mkdir(r[|r| - 1]) == Refused)
  {
    Walk(dir, 0, mkdir)
  }

  // ---------------------------------------------------------------------------
  // Reference description

  /** Every boundary prefix of `path` at index `i` or later, shortest first. */
  function BoundaryPrefixes(path: Bytes, i: nat): (ps: seq<Bytes>)
    requires i <= |path|
    ensures forall j | 0 <= j < |ps| :: IsBoundaryPrefix(path, ps[j]) && |ps[j]| > i
    ensures forall k | i <= k < |path| && IsBoundary(path, k) :: path[..k + 1] in ps
    ensures forall j, l | 0 <= j < l < |ps| :: |ps[j]| < |ps[l]|
    decreases |path| - i
  {
    if i == |path| then []
    else if IsBoundary(path, i) then [path[..i + 1]] + BoundaryPrefixes(path, i + 1)
    else BoundaryPrefixes(path, i + 1)
  }

  /** The first prefix in `ps` that `mkdir` refuses, if any. */
  function FirstRefusal(ps: seq<Bytes>, mkdir: Bytes -> MkdirResult): (r: Option<nat>)
    ensures r.None? ==> forall j | 0 <= j < |ps| :: mkdir(ps[j]) != Refused
    ensures r.Some? ==> r.value < |ps| && mkdir(ps[r.value]) == Refused
    ensures r.Some? ==> forall j | 0 <= j < r.value :: mkdir(ps[j]) != Refused
  {
    if ps == [] then None
    else if mkdir(ps[0]) == Refused then Some(0)
    else match FirstRefusal(ps[1..], mkdir)
      case None => None
      case Some(j) => Some(j + 1)
  }

  /** The prefixes `ps` in order, then `path`, cut right after the first refused prefix. */
  function Cut(ps: seq<Bytes>, path: Bytes, mkdir: Bytes -> MkdirResult): seq<Bytes> {
    match FirstRefusal(ps, mkdir)
    case None => ps + [path]
    case Some(j) => ps[..j + 1]
  }

  /**
   The trace stated independently of the loop: every boundary prefix in order, then the
   whole path, cut right after the first refused prefix.
   */
  function Expected(path: Bytes, mkdir: Bytes -> MkdirResult): seq<Bytes> {
    Cut(BoundaryPrefixes(path, 0), path, mkdir)
  }

  lemma CutCons(p: Bytes, ps: seq<Bytes>, path: Bytes, mkdir: Bytes -> MkdirResult)
    requires mkdir(p) != Refused
    ensures Cut([p] + ps, path, mkdir) == [p] + Cut(ps, path, mkdir)
  {
    var qs := [p] + ps;
    assert qs[1..] == ps;
    match FirstRefusal(ps, mkdir)
    case None =>
      assert FirstRefusal(qs, mkdir) == None;
    case Some(j) =>
      assert FirstRefusal(qs, mkdir) == Some(j + 1);
      assert qs[..j + 2] == [p] + ps[..j + 1];
  }

  lemma {:induction false} WalkFollowsPrefixes(path: Bytes, i: nat, mkdir: Bytes -> MkdirResult)
    requires i <= |path|
    ensures Walk(path, i, mkdir) == Cut(BoundaryPrefixes(path, i), path, mkdir)
    decreases |path| - i
  {
    if i == |path| {
      assert BoundaryPrefixes(path, i) == [];
    } else {
      WalkFollowsPrefixes(path, i + 1, mkdir);
      if IsBoundary(path, i) {
        var p := path[..i + 1];
        var rest := BoundaryPrefixes(path, i + 1);
        assert BoundaryPrefixes(path, i) == [p] + rest;
        if mkdir(p) == Refused {
          assert FirstRefusal([p] + rest, mkdir) == Some(0);
          assert ([p] + rest)[..1] == [p];
        } else {
          CutCons(p, rest, path, mkdir);
        }
      }
    }
  }

  /** The loop makes exactly the calls of the reference description. */
  lemma AttemptsAsDescribed(dir: Bytes, mkdir: Bytes -> MkdirResult)
    ensures Attempts(dir, mkdir) == Expected(dir, mkdir)
  {
    WalkFollowsPrefixes(dir, 0, mkdir);
  }

  /** With no refusal, every boundary prefix is attempted, then the whole string. */
  lemma AllAttemptedWithoutRefusal(dir: Bytes, mkdir: Bytes -> MkdirResult)
    requires forall p | IsBoundaryPrefix(dir, p) :: mkdir(p) != Refused
    ensures Attempts(dir, mkdir) == BoundaryPrefixes(dir, 0) + [dir]
  {
    AttemptsAsDescribed(dir, mkdir);
  }

  /**
   EEXIST never stops the walk: two oracles that refuse the same prefixes give
   the same trace, however they split the rest between Made and Exists.
   */
  lemma {:induction false} OnlyRefusalsMatter(path: Bytes, i: nat, m1: Bytes -> MkdirResult, m2: Bytes -> MkdirResult)
    requires i <= |path|
    requires forall p | IsBoundaryPrefix(path, p) :: (m1(p) == Refused) == (m2(p) == Refused)
    ensures Walk(path, i, m1) == Walk(path, i, m2)
    decreases |path| - i
  {
    if i < |path| {
      OnlyRefusalsMatter(path, i + 1, m1, m2);
      if IsBoundary(path, i) {
        assert IsBoundaryPrefix(path, path[..i + 1]);
      }
    }
  }

  /** A string with no separator from `i` on is created with the one final call. */
  lemma {:induction false} NoSeparatorOneCall(path: Bytes, i: nat, mkdir: Bytes -> MkdirResult)
    requires i <= |path| && SLASH !in path[i..] && BACKSLASH !in path[i..]
    ensures Walk(path, i, mkdir) == [path]
    decreases |path| - i
  {
    if i < |path| {
      assert path[i] == path[i..][0];
      assert path[i + 1..] == path[i..][1..];
      NoSeparatorOneCall(path, i + 1, mkdir);
    }
  }

  /** Consecutive separators give one call, and a leading separator none. */
  lemma RunsOfSeparators(mkdir: Bytes -> MkdirResult)
    requires forall p :: mkdir(p) == Made
    ensures Attempts([SLASH, 0x61, SLASH, SLASH, 0x62], mkdir)
         == [[SLASH, 0x61, SLASH], [SLASH, 0x61, SLASH, SLASH, 0x62]]
  {
    var path: Bytes := [SLASH, 0x61, SLASH, SLASH, 0x62];
    assert !IsBoundary(path, 0) && !IsBoundary(path, 1) && IsBoundary(path, 2);
    assert !IsBoundary(path, 3) && !IsBoundary(path, 4);
    assert Walk(path, 3, mkdir) == [path] by {
      assert Walk(path, 4, mkdir) == Walk(path, 5, mkdir) == [path];
    }
    assert path[..3] == [SLASH, 0x61, SLASH];
    assert Walk(path, 2, mkdir) == [path[..3], path];
    assert Walk(path, 0, mkdir) == Walk(path, 1, mkdir) == Walk(path, 2, mkdir);
  }

  /** A refusal stops the walk: neither later prefixes nor the whole string are tried. */
  lemma RefusalStopsWalk(mkdir: Bytes -> MkdirResult)
    requires mkdir([0x61, BACKSLASH]) == Refused
    ensures Attempts([0x61, BACKSLASH, 0x62, BACKSLASH, 0x63], mkdir) == [[0x61, BACKSLASH]]
  {
    var path: Bytes := [0x61, BACKSLASH, 0x62, BACKSLASH, 0x63];
    assert !IsBoundary(path, 0) && IsBoundary(path, 1);
    assert path[..2] == [0x61, BACKSLASH];
    assert Walk(path, 1, mkdir) == [path[..2]];
  }
}
