// The git-diff compressor: eliding unchanged lines of a hunk, and parsing a diff
// block into files and hunks around it.
module DiffHunks {
  import opened Text

  // ----- which lines stay --------------------------------------------------

  /** Added or removed, but not a `+++` or `---` header. */
  predicate IsChange(l: string)
  {
    && (HasPrefix(l, "+") || HasPrefix(l, "-"))
    && !HasPrefix(l, "+++") && !HasPrefix(l, "---")
  }

  const CONTEXT := 2
  const ELISION := "..."

  /** Within two lines of a change. */
  predicate Keep(lines: seq<string>, i: int)
  {
    exists m :: 0 <= m < |lines| && i - CONTEXT <= m <= i + CONTEXT && IsChange(lines[m])
  }

  predicate StartsRun(lines: seq<string>, i: nat)
  {
    !Keep(lines, i) && (i == 0 || Keep(lines, i - 1))
  }

  /** The output for the first `n` lines: kept lines, and one marker per maximal run
      of dropped ones. */
  function Elided(lines: seq<string>, n: nat): seq<string>
    requires n <= |lines|
  {
    if n == 0 then []
    else
      Elided(lines, n - 1)
      + (if Keep(lines, n - 1) then [lines[n - 1]] else if StartsRun(lines, n - 1) then [ELISION] else [])
  }

  function Elide(lines: seq<string>): seq<string>
  {
    Elided(lines, |lines|)
  }

  method CompressHunk(lines: seq<string>) returns (output: seq<string>)
    ensures output == Elide(lines)
  {
    var modIndices: set<nat> := {};
    for idx := 0 to |lines|
      invariant forall m: nat :: m in modIndices <==> m < idx && IsChange(lines[m])
    {
      if IsChange(lines[idx]) {
        modIndices := modIndices + {idx};
      }
    }
    output := [];
    var inElision := false;
    for idx := 0 to |lines|
      invariant output == Elided(lines, idx)
      invariant inElision == (idx > 0 && !Keep(lines, idx - 1))
    {
      if idx in modIndices {
        assert Keep(lines, idx);
        output := output + [lines[idx]];
        inElision := false;
        continue;
      }
      var keep := NearAny(modIndices, idx);
      assert keep == Keep(lines, idx) by {
        assert forall m: nat :: m in modIndices <==> m < |lines| && IsChange(lines[m]);
      }
      if keep {
        output := output + [lines[idx]];
        inElision := false;
      } else if !inElision {
        output := output + [ELISION];
        inElision := true;
      }
    }
  }

  /** The search for a near change, in whatever order the map yields its keys. */
  method NearAny(modIndices: set<nat>, idx: nat) returns (keep: bool)
    ensures keep == exists m :: m in modIndices && idx - CONTEXT <= m <= idx + CONTEXT
  {
    var rest := modIndices;
    while rest != {}
      invariant rest <= modIndices
      invariant forall m :: m in modIndices && m !in rest ==> !(idx - CONTEXT <= m <= idx + CONTEXT)
      decreases |rest|
    {
      var mIdx :| mIdx in rest;
      var dist := idx - mIdx;
      if dist < 0 {
        dist := -dist;
      }
      if dist <= CONTEXT {
        return true;
      }
      rest := rest - {mIdx};
    }
    return false;
  }

  // ----- where output lines come from --------------------------------------

  /** The source position of every output line; a marker has that of its run. */
  function Sources(lines: seq<string>, n: nat): (src: seq<nat>)
    requires n <= |lines|
    ensures |src| == |Elided(lines, n)|
  {
    if n == 0 then []
    else
      Sources(lines, n - 1)
      + (if Keep(lines, n - 1) || StartsRun(lines, n - 1) then [n - 1] else [])
  }

  /** Output neighbours: a kept line is followed by the next line, a marker by the
      first kept line after its run. */
  ghost predicate Follows(lines: seq<string>, p: nat, q: nat)
  {
    && p < q
    && if Keep(lines, p) then q == p + 1
       else Keep(lines, q) && forall k :: p <= k < q ==> !Keep(lines, k)
  }

  ghost predicate SourcesSound(lines: seq<string>, n: nat, out: seq<string>, src: seq<nat>)
    requires n <= |lines| && |src| == |out|
  {
    && (forall j :: 0 <= j < |src| ==>
          && src[j] < n
          && (Keep(lines, src[j]) || StartsRun(lines, src[j]))
          && out[j] == if Keep(lines, src[j]) then lines[src[j]] else ELISION)
    && (forall j :: 0 < j < |src| ==> Follows(lines, src[j - 1], src[j]))
    && (n > 0 ==> |src| > 0 && src[0] == 0)
    && (|src| > 0 ==>
          var last := src[|src| - 1];
          if Keep(lines, last) then last == n - 1 else forall k :: last <= k < n ==> !Keep(lines, k))
  }

  lemma SoundPush(lines: seq<string>, n: nat, out: seq<string>, src: seq<nat>, line: string)
    requires n < |lines| && |src| == |out| && SourcesSound(lines, n, out, src)
    requires Keep(lines, n) || StartsRun(lines, n)
    requires line == if Keep(lines, n) then lines[n] else ELISION
    ensures SourcesSound(lines, n + 1, out + [line], src + [n])
  {
    hide Keep;
    var more := src + [n];
    if |src| > 0 {
      assert Follows(lines, src[|src| - 1], n);
    }
    hide StartsRun, Follows;
    forall j | 0 < j < |more|
      ensures Follows(lines, more[j - 1], more[j])
    {
      if j < |src| {
        assert Follows(lines, src[j - 1], src[j]);
      }
    }
  }

  lemma SoundDrop(lines: seq<string>, n: nat, out: seq<string>, src: seq<nat>)
    requires n < |lines| && |src| == |out| && SourcesSound(lines, n, out, src)
    requires !Keep(lines, n) && !StartsRun(lines, n)
    ensures SourcesSound(lines, n + 1, out, src)
  {
    hide Keep;
  }

  lemma {:induction false} SourcesAreSound(lines: seq<string>, n: nat)
    requires n <= |lines|
    ensures SourcesSound(lines, n, Elided(lines, n), Sources(lines, n))
  {
    hide *;
    if n == 0 {
      NoSources(lines);
    } else {
      SourcesUnit(lines, n);
      var out, src := Elided(lines, n - 1), Sources(lines, n - 1);
      SourcesAreSound(lines, n - 1);
      if Keep(lines, n - 1) || StartsRun(lines, n - 1) {
        SoundPush(lines, n - 1, out, src, if Keep(lines, n - 1) then lines[n - 1] else ELISION);
      } else {
        SoundDrop(lines, n - 1, out, src);
      }
    }
  }

  lemma NoSources(lines: seq<string>)
    ensures SourcesSound(lines, 0, Elided(lines, 0), Sources(lines, 0))
  {
    hide Keep, StartsRun;
  }

  lemma SourcesUnit(lines: seq<string>, n: nat)
    requires 0 < n <= |lines|
    ensures if Keep(lines, n - 1) || StartsRun(lines, n - 1) then
              && Elided(lines, n) == Elided(lines, n - 1) + [if Keep(lines, n - 1) then lines[n - 1] else ELISION]
              && Sources(lines, n) == Sources(lines, n - 1) + [n - 1]
            else Elided(lines, n) == Elided(lines, n - 1) && Sources(lines, n) == Sources(lines, n - 1)
  {
    hide Keep, StartsRun;
    assert Elided(lines, n - 1) + [] == Elided(lines, n - 1) && Sources(lines, n - 1) + [] == Sources(lines, n - 1);
  }

  lemma ElisionIsNoChange()
    ensures !IsChange(ELISION)
  {
    assert ELISION[0] == '.';
  }

  /** A dropped line has no change within two lines, so the kept line next to it
      has its change exactly two lines further on. */
  lemma EdgeOfRun(lines: seq<string>, i: nat)
    requires i < |lines| && !Keep(lines, i)
    ensures i > 0 && Keep(lines, i - 1) ==>
              && i >= 3 && IsChange(lines[i - 3]) && Keep(lines, i - 2)
              && !IsChange(lines[i - 1]) && !IsChange(lines[i - 2])
    ensures i + 1 < |lines| && Keep(lines, i + 1) ==>
              && i + 3 < |lines| && IsChange(lines[i + 3]) && Keep(lines, i + 2)
              && !IsChange(lines[i + 1]) && !IsChange(lines[i + 2])
  {
    if i > 0 && Keep(lines, i - 1) {
      var m :| 0 <= m < |lines| && i - 1 - CONTEXT <= m <= i - 1 + CONTEXT && IsChange(lines[m]);
      assert m == i - 3;
    }
    if i + 1 < |lines| && Keep(lines, i + 1) {
      var m :| 0 <= m < |lines| && i + 1 - CONTEXT <= m <= i + 1 + CONTEXT && IsChange(lines[m]);
      assert m == i + 3;
    }
  }

  /** Kept neighbours in the source are neighbours in the output. */
  lemma KeptNeighbours(lines: seq<string>, j: nat)
    requires j < |Sources(lines, |lines|)|
    ensures var src := Sources(lines, |lines|);
            && (src[j] > 0 && Keep(lines, src[j] - 1) ==> j > 0 && src[j - 1] == src[j] - 1)
            && (src[j] + 1 < |lines| && Keep(lines, src[j]) ==> j + 1 < |src| && src[j + 1] == src[j] + 1)
  {
    hide Keep;
    SourcesAreSound(lines, |lines|);
    var src := Sources(lines, |lines|);
    if j > 0 {
      assert Follows(lines, src[j - 1], src[j]);
    }
    if j + 1 < |src| {
      assert Follows(lines, src[j], src[j + 1]);
    }
  }

  /** The line at source distance at most two of a kept line, with nothing dropped
      in between, is at the same distance in the output. */
  lemma Translate(lines: seq<string>, j: nat, d: int)
    requires j < |Sources(lines, |lines|)| && -2 <= d <= 2
    requires var i := Sources(lines, |lines|)[j];
             0 <= i + d < |lines| && forall k :: (i <= k <= i + d || i + d <= k <= i) ==> Keep(lines, k)
    ensures var src := Sources(lines, |lines|);
            0 <= j + d < |src| && src[j + d] == src[j] + d
  {
    hide Keep;
    if d > 0 {
      KeptNeighbours(lines, j);
      if d == 2 {
        KeptNeighbours(lines, j + 1);
      }
    } else if d < 0 {
      KeptNeighbours(lines, j);
      if d == -2 {
        KeptNeighbours(lines, j - 1);
      }
    }
  }

  /** What a second pass sees: exactly the kept lines are near a change again, and a
      marker is three lines from the changes around it. */
  lemma OutputKeeps(lines: seq<string>, j: nat)
    requires j < |Elide(lines)|
    ensures Keep(Elide(lines), j) <==> Keep(lines, Sources(lines, |lines|)[j])
    ensures !Keep(Elide(lines), j) ==> MarkerStandsApart(Elide(lines), j)
  {
    hide MarkerStandsApart, Elided, Sources;
    KeptIsItself(lines, j);
    if Keep(lines, Sources(lines, |lines|)[j]) {
      KeptStaysKept(lines, j);
    } else {
      MarkerIsApart(lines, j);
      ApartIsNotKept(Elide(lines), j);
    }
  }

  lemma KeptStaysKept(lines: seq<string>, j: nat)
    requires j < |Elide(lines)| && Keep(lines, Sources(lines, |lines|)[j])
    requires Sources(lines, |lines|)[j] < |lines|
    ensures Keep(Elide(lines), j)
  {
    var out, src := Elide(lines), Sources(lines, |lines|);
    var i := src[j];
    var m :| 0 <= m < |lines| && i - CONTEXT <= m <= i + CONTEXT && IsChange(lines[m]);
    assert forall k :: (i <= k <= m || m <= k <= i) ==> Keep(lines, k);
    Translate(lines, j, m - i);
    KeptIsItself(lines, j + (m - i));
    assert out[j + (m - i)] == lines[m];
  }

  lemma MarkerIsApart(lines: seq<string>, j: nat)
    requires j < |Elide(lines)| && !Keep(lines, Sources(lines, |lines|)[j])
    ensures MarkerStandsApart(Elide(lines), j)
  {
    KeptIsItself(lines, j);
    MarkerBefore(lines, j);
    MarkerAfter(lines, j);
  }

  lemma ApartIsNotKept(out: seq<string>, j: nat)
    requires MarkerStandsApart(out, j)
    ensures !Keep(out, j)
  {
    ElisionIsNoChange();
    if Keep(out, j) {
      var m :| 0 <= m < |out| && j - CONTEXT <= m <= j + CONTEXT && IsChange(out[m]);
      assert false;
    }
  }

  /** Line `j` is the marker, its nearest change on either side is at distance three
      exactly, and there is one unless the text ends there. */
  ghost predicate MarkerStandsApart(out: seq<string>, j: nat)
  {
    && j < |out| && out[j] == ELISION
    && (j > 0 ==> j >= 3 && IsChange(out[j - 3]) && !IsChange(out[j - 2]) && !IsChange(out[j - 1]))
    && (j + 1 < |out| ==> j + 3 < |out| && IsChange(out[j + 3]) && !IsChange(out[j + 2]) && !IsChange(out[j + 1]))
  }

  lemma ChangeIsKept(lines: seq<string>, i: nat)
    requires i < |lines| && IsChange(lines[i])
    ensures Keep(lines, i)
  {
  }

  lemma MarkerBefore(lines: seq<string>, j: nat)
    requires j < |Elide(lines)| && !Keep(lines, Sources(lines, |lines|)[j])
    ensures var out := Elide(lines);
            j > 0 ==> j >= 3 && IsChange(out[j - 3]) && !IsChange(out[j - 2]) && !IsChange(out[j - 1])
  {
    hide Keep, IsChange, StartsRun, Elided, Sources;
    SourcesAreSound(lines, |lines|);
    var src := Sources(lines, |lines|);
    if j > 0 {
      assert Follows(lines, src[j - 1], src[j]);
      var i := src[j];
      assert i > 0 && Keep(lines, i - 1);
      EdgeOfRun(lines, i);
      KeptNeighbours(lines, j);
      ChangeIsKept(lines, i - 3);
      Translate(lines, j - 1, -2);
      Translate(lines, j - 1, -1);
    }
  }

  lemma MarkerAfter(lines: seq<string>, j: nat)
    requires j < |Elide(lines)| && !Keep(lines, Sources(lines, |lines|)[j])
    ensures var out := Elide(lines);
            j + 1 < |out| ==> j + 3 < |out| && IsChange(out[j + 3]) && !IsChange(out[j + 2]) && !IsChange(out[j + 1])
  {
    hide Keep, IsChange, StartsRun, Elided, Sources;
    SourcesAreSound(lines, |lines|);
    var src := Sources(lines, |lines|);
    if j + 1 < |src| {
      assert Follows(lines, src[j], src[j + 1]);
      var e := src[j + 1];
      assert !Keep(lines, e - 1) && Keep(lines, e);
      EdgeOfRun(lines, e - 1);
      ChangeIsKept(lines, e + 2);
      Translate(lines, j + 1, 2);
      Translate(lines, j + 1, 1);
    }
  }

  lemma {:induction false} ElidedAgain(lines: seq<string>, n: nat)
    requires n <= |Elide(lines)|
    ensures Elided(Elide(lines), n) == Elide(lines)[..n]
  {
    if n > 0 {
      hide Keep, Elide;
      ElidedAgain(lines, n - 1);
      var out, src, j := Elide(lines), Sources(lines, |lines|), n - 1;
      assert out[..n] == out[..j] + [out[j]];
      OutputKeeps(lines, j);
      KeptIsItself(lines, j);
      if !Keep(out, j) && j > 0 {
        OutputKeeps(lines, j - 1);
        SourcesAreSound(lines, |lines|);
        assert Follows(lines, src[j - 1], src[j]);
      }
    }
  }

  lemma KeptIsItself(lines: seq<string>, j: nat)
    requires j < |Elide(lines)|
    ensures var src := Sources(lines, |lines|);
            && src[j] < |lines|
            && (Keep(lines, src[j]) || StartsRun(lines, src[j]))
            && Elide(lines)[j] == if Keep(lines, src[j]) then lines[src[j]] else ELISION
  {
    hide Keep;
    SourcesAreSound(lines, |lines|);
  }

  /** Compressing a compressed hunk gives the same lines, for every hunk. */
  lemma ElideIdempotent(lines: seq<string>)
    ensures Elide(Elide(lines)) == Elide(lines)
    ensures forall j: nat :: j < |Elide(lines)| && !Keep(Elide(lines), j) ==> MarkerStandsApart(Elide(lines), j)
  {
    ElidedAgain(lines, |Elide(lines)|);
    forall j: nat | j < |Elide(lines)| {
      OutputKeeps(lines, j);
    }
  }

  /** The kept lines, without markers. */
  function KeptLines(lines: seq<string>, n: nat): seq<string>
    requires n <= |lines|
  {
    if n == 0 then [] else KeptLines(lines, n - 1) + (if Keep(lines, n - 1) then [lines[n - 1]] else [])
  }

  /** Whatever is near a change survives, in order. */
  lemma {:induction false} KeptLinesSurvive(lines: seq<string>, n: nat, m: nat)
    requires n <= |lines| && m == |Elided(lines, n)|
    ensures m <= |Elide(lines)| && KeptLines(Elide(lines), m) == KeptLines(lines, n)
  {
    ElidedPrefix(lines, n);
    hide *;
    if n == 0 {
      NothingKept(lines);
    } else {
      SourcesUnit(lines, n);
      var k := |Elided(lines, n - 1)|;
      KeptLinesSurvive(lines, n - 1, k);
      KeptLinesStep(lines, n);
      if m > k {
        SourceOfLast(lines, n, k);
        SameLineKept(lines, n, k);
      }
    }
  }

  /** The last line counted in the source and its place in the output are both kept,
      as the same line, or both not. */
  lemma SameLineKept(lines: seq<string>, n: nat, k: nat)
    requires 0 < n <= |lines| && k < |Elide(lines)| && Sources(lines, |lines|)[k] == n - 1
    requires KeptLines(Elide(lines), k) == KeptLines(lines, n - 1)
    ensures KeptLines(Elide(lines), k + 1) == KeptLines(lines, n)
  {
    hide *;
    var out := Elide(lines);
    OutputKeeps(lines, k);
    KeptIsItself(lines, k);
    KeptLinesStep(out, k + 1);
    KeptLinesStep(lines, n);
  }

  lemma NothingKept(lines: seq<string>)
    ensures |Elided(lines, 0)| == 0 && KeptLines(lines, 0) == [] && KeptLines(Elide(lines), 0) == []
  {
  }

  lemma SourceOfLast(lines: seq<string>, n: nat, k: nat)
    requires 0 < n <= |lines| && k == |Elided(lines, n - 1)| < |Elided(lines, n)|
    ensures k < |Elide(lines)| && Sources(lines, |lines|)[k] == n - 1
  {
    hide Keep, StartsRun;
    SourcesPrefix(lines, n);
    ElidedPrefix(lines, n);
    assert Sources(lines, n)[k] == n - 1;
  }

  lemma KeptLinesStep(lines: seq<string>, n: nat)
    requires 0 < n <= |lines|
    ensures KeptLines(lines, n) == KeptLines(lines, n - 1) + (if Keep(lines, n - 1) then [lines[n - 1]] else [])
    ensures !Keep(lines, n - 1) ==> KeptLines(lines, n) == KeptLines(lines, n - 1)
  {
  }

  lemma {:induction false} ElidedPrefix(lines: seq<string>, n: nat)
    requires n <= |lines|
    ensures Elided(lines, n) <= Elide(lines)
    decreases |lines| - n
  {
    if n < |lines| {
      ElidedPrefix(lines, n + 1);
    }
  }

  lemma {:induction false} SourcesPrefix(lines: seq<string>, n: nat)
    requires n <= |lines|
    ensures Sources(lines, n) <= Sources(lines, |lines|)
    decreases |lines| - n
  {
    if n < |lines| {
      SourcesPrefix(lines, n + 1);
    }
  }

  // ----- files and hunks ---------------------------------------------------

  datatype Hunk = Hunk(header: string, lines: seq<string>)
  datatype File = File(headers: seq<string>, hunks: seq<Hunk>)

  /** The parser's three variables. */
  datatype Parser = Parser(files: seq<File>, curFile: Option<File>, curHunk: Option<Hunk>)

  const FILE_MARK := "diff --git "
  const HUNK_MARK := "@@ "

  function PushHunk(f: File, h: Option<Hunk>): File
  {
    if h.Some? then f.(hunks := f.hunks + [h.value]) else f
  }

  function Feed(st: Parser, line: string): Parser
  {
    if HasPrefix(line, FILE_MARK) then
      Parser(Flush(st), Some(File([line], [])), None)
    else if st.curFile.None? then st
    else if HasPrefix(line, HUNK_MARK) then
      st.(curFile := Some(PushHunk(st.curFile.value, st.curHunk)), curHunk := Some(Hunk(line, [])))
    else if st.curHunk.Some? then
      st.(curHunk := Some(st.curHunk.value.(lines := st.curHunk.value.lines + [line])))
    else
      st.(curFile := Some(st.curFile.value.(headers := st.curFile.value.headers + [line])))
  }

  function Flush(st: Parser): seq<File>
  {
    if st.curFile.Some? then st.files + [PushHunk(st.curFile.value, st.curHunk)] else st.files
  }

  function FeedAll(st: Parser, lines: seq<string>): Parser
  {
    if |lines| == 0 then st else Feed(FeedAll(st, lines[..|lines| - 1]), lines[|lines| - 1])
  }

  const EMPTY := Parser([], None, None)

  function Parse(lines: seq<string>): seq<File>
  {
    Flush(FeedAll(EMPTY, lines))
  }

  method ParseDiff(diffLines: seq<string>) returns (files: seq<File>)
    ensures files == Parse(diffLines)
  {
    files := [];
    var curFile: Option<File>, curHunk: Option<Hunk> := None, None;
    for i := 0 to |diffLines|
      invariant Parser(files, curFile, curHunk) == FeedAll(EMPTY, diffLines[..i])
      invariant curFile.None? ==> curHunk.None?
    {
      assert diffLines[..i + 1][..i] == diffLines[..i];
      var line := diffLines[i];
      if HasPrefix(line, FILE_MARK) {
        if curFile.Some? {
          if curHunk.Some? {
            curFile := Some(PushHunk(curFile.value, curHunk));
            curHunk := None;
          }
          files := files + [curFile.value];
        }
        curFile := Some(File([line], []));
      } else if curFile.Some? {
        if HasPrefix(line, HUNK_MARK) {
          if curHunk.Some? {
            curFile := Some(PushHunk(curFile.value, curHunk));
          }
          curHunk := Some(Hunk(line, []));
        } else if curHunk.Some? {
          curHunk := Some(curHunk.value.(lines := curHunk.value.lines + [line]));
        } else {
          curFile := Some(curFile.value.(headers := curFile.value.headers + [line]));
        }
      }
    }
    assert diffLines[..|diffLines|] == diffLines;
    if curFile.Some? {
      if curHunk.Some? {
        curFile := Some(PushHunk(curFile.value, curHunk));
      }
      files := files + [curFile.value];
    }
  }

  function HunkLines(hs: seq<Hunk>): seq<string>
  {
    if |hs| == 0 then []
    else HunkLines(hs[..|hs| - 1]) + [hs[|hs| - 1].header] + hs[|hs| - 1].lines
  }

  /** The lines of parsed files, in the order the renderer writes them. */
  function FileLines(fs: seq<File>): seq<string>
  {
    if |fs| == 0 then []
    else FileLines(fs[..|fs| - 1]) + fs[|fs| - 1].headers + HunkLines(fs[|fs| - 1].hunks)
  }

  /** Headers come before hunks. */
  ghost predicate Consistent(st: Parser)
  {
    && (st.curFile.None? ==> st.curHunk.None?)
    && (st.curFile.Some? && st.curHunk.None? ==> st.curFile.value.hunks == [])
  }

  /** Once a file header was read, every further line is stored exactly once. */
  lemma FeedAddsTheLine(st: Parser, line: string)
    requires Consistent(st)
    ensures Consistent(Feed(st, line))
    ensures st.curFile.Some? || HasPrefix(line, FILE_MARK) ==>
              FileLines(Flush(Feed(st, line))) == FileLines(Flush(st)) + [line]
    ensures st.curFile.None? && !HasPrefix(line, FILE_MARK) ==> Feed(st, line) == st
  {
    hide HasPrefix, FileLines, HunkLines;
    if HasPrefix(line, FILE_MARK) {
      NewFile(Flush(st), line);
    } else if st.curFile.Some? {
      var next := Feed(st, line);
      var f, g := PushHunk(st.curFile.value, st.curHunk), PushHunk(next.curFile.value, next.curHunk);
      if HasPrefix(line, HUNK_MARK) {
        NewHunk(f, line);
      } else if st.curHunk.Some? {
        LongerHunk(st.curFile.value, st.curHunk.value, line);
      } else {
        LongerHeaders(f, line);
      }
      LongerFile(st.files, f, g, line);
    }
  }

  function LinesOf(f: File): seq<string>
  {
    f.headers + HunkLines(f.hunks)
  }

  lemma FileLinesPush(fs: seq<File>, f: File)
    ensures FileLines(fs + [f]) == FileLines(fs) + (f.headers + HunkLines(f.hunks))
  {
    assert (fs + [f])[..|fs|] == fs;
  }

  lemma HunkLinesPush(hs: seq<Hunk>, h: Hunk)
    ensures HunkLines(hs + [h]) == HunkLines(hs) + ([h.header] + h.lines)
  {
    assert (hs + [h])[..|hs|] == hs;
  }

  lemma NewFile(fs: seq<File>, line: string)
    ensures FileLines(fs + [File([line], [])]) == FileLines(fs) + [line]
  {
    FileLinesPush(fs, File([line], []));
    assert HunkLines([]) == [];
  }

  lemma NewHunk(f: File, line: string)
    ensures LinesOf(f.(hunks := f.hunks + [Hunk(line, [])])) == LinesOf(f) + [line]
  {
    HunkLinesPush(f.hunks, Hunk(line, []));
    hide HunkLines;
  }

  lemma LongerHunk(f: File, h: Hunk, line: string)
    ensures LinesOf(f.(hunks := f.hunks + [h.(lines := h.lines + [line])])) ==
            LinesOf(f.(hunks := f.hunks + [h])) + [line]
  {
    hide HunkLines;
    HunkLinesPush(f.hunks, h);
    HunkLinesPush(f.hunks, h.(lines := h.lines + [line]));
  }

  lemma LongerHeaders(f: File, line: string)
    requires f.hunks == []
    ensures LinesOf(f.(headers := f.headers + [line])) == LinesOf(f) + [line]
  {
    assert HunkLines([]) == [];
  }

  lemma LongerFile(fs: seq<File>, f: File, g: File, line: string)
    requires LinesOf(g) == LinesOf(f) + [line]
    ensures FileLines(fs + [g]) == FileLines(fs + [f]) + [line]
  {
    FileLinesPush(fs, f);
    FileLinesPush(fs, g);
    hide FileLines, HunkLines;
  }

  lemma FeedAllUnfold(st: Parser, lines: seq<string>)
    ensures FeedAll(st, lines) ==
            if |lines| == 0 then st else Feed(FeedAll(st, lines[..|lines| - 1]), lines[|lines| - 1])
    ensures Parse(lines) == Flush(FeedAll(EMPTY, lines))
  {
    hide Feed, Flush;
  }

  /** From the first file header on, the parsed block concatenates back. */
  lemma {:induction false} ParsedBlock(lines: seq<string>)
    ensures Consistent(FeedAll(EMPTY, lines))
    ensures |lines| > 0 && HasPrefix(lines[0], FILE_MARK) ==>
              FeedAll(EMPTY, lines).curFile.Some? && FileLines(Parse(lines)) == lines
  {
    hide *;
    FeedAllUnfold(EMPTY, lines);
    if |lines| == 0 {
      NothingFed();
    } else {
      var init, last := lines[..|lines| - 1], lines[|lines| - 1];
      ParsedBlock(init);
      FeedAllUnfold(EMPTY, init);
      FeedAddsTheLine(FeedAll(EMPTY, init), last);
      FeedKeepsFile(FeedAll(EMPTY, init), last);
      if |init| == 0 {
        NothingParsed();
        assert init == [] && lines == [last];
      } else {
        assert lines == init + [last];
      }
    }
  }

  lemma NothingFed()
    ensures Consistent(EMPTY)
  {
  }

  lemma FeedKeepsFile(st: Parser, line: string)
    ensures st.curFile.Some? || HasPrefix(line, FILE_MARK) ==> Feed(st, line).curFile.Some?
  {
  }

  lemma NothingParsed()
    ensures FileLines(Flush(EMPTY)) == []
  {
  }

  // ----- parsing is the inverse of rendering -------------------------------

  predicate PlainLine(l: string)
  {
    !HasPrefix(l, FILE_MARK) && !HasPrefix(l, HUNK_MARK)
  }

  predicate WellFormedHunk(h: Hunk)
  {
    HasPrefix(h.header, HUNK_MARK) && forall i :: 0 <= i < |h.lines| ==> PlainLine(h.lines[i])
  }

  predicate WellFormedFile(f: File)
  {
    && |f.headers| > 0 && HasPrefix(f.headers[0], FILE_MARK)
    && (forall i :: 0 < i < |f.headers| ==> PlainLine(f.headers[i]))
    && (forall i :: 0 <= i < |f.hunks| ==> WellFormedHunk(f.hunks[i]))
  }

  predicate WellFormed(fs: seq<File>)
  {
    forall i :: 0 <= i < |fs| ==> WellFormedFile(fs[i])
  }

  lemma {:induction false} FeedAllConcat(st: Parser, a: seq<string>, b: seq<string>)
    ensures FeedAll(st, a + b) == FeedAll(FeedAll(st, a), b)
  {
    if |b| == 0 {
      assert a + b == a;
    } else {
      assert (a + b)[..|a + b| - 1] == a + b[..|b| - 1];
      FeedAllConcat(st, a, b[..|b| - 1]);
    }
  }

  lemma MarksDiffer(l: string)
    requires HasPrefix(l, HUNK_MARK)
    ensures !HasPrefix(l, FILE_MARK)
  {
    assert l[0] == HUNK_MARK[0] == '@' && FILE_MARK[0] == 'd';
  }

  lemma {:induction false} FeedBody(st: Parser, body: seq<string>)
    requires forall i :: 0 <= i < |body| ==> PlainLine(body[i])
    requires st.curFile.Some?
    ensures FeedAll(st, body) ==
            if st.curHunk.Some? then st.(curHunk := Some(st.curHunk.value.(lines := st.curHunk.value.lines + body)))
            else st.(curFile := Some(st.curFile.value.(headers := st.curFile.value.headers + body)))
  {
    if |body| == 0 {
      if st.curHunk.Some? {
        assert st.curHunk.value.lines + body == st.curHunk.value.lines;
      } else {
        assert st.curFile.value.headers + body == st.curFile.value.headers;
      }
    } else {
      var init := body[..|body| - 1];
      FeedBody(st, init);
      assert body == init + [body[|body| - 1]];
      if st.curHunk.Some? {
        assert st.curHunk.value.lines + init + [body[|body| - 1]] == st.curHunk.value.lines + body;
      } else {
        assert st.curFile.value.headers + init + [body[|body| - 1]] == st.curFile.value.headers + body;
      }
    }
  }

  lemma FeedHunk(st: Parser, h: Hunk)
    requires WellFormedHunk(h) && st.curFile.Some?
    ensures FeedAll(st, [h.header] + h.lines)
         == st.(curFile := Some(PushHunk(st.curFile.value, st.curHunk)), curHunk := Some(h))
  {
    MarksDiffer(h.header);
    FeedAllConcat(st, [h.header], h.lines);
    assert [h.header][..0] == [];
    assert FeedAll(st, [h.header]) == Feed(st, h.header);
    FeedBody(Feed(st, h.header), h.lines);
    assert [] + h.lines == h.lines;
  }

  lemma {:induction false} FeedHunks(st: Parser, hs: seq<Hunk>)
    requires st.curFile.Some? && st.curHunk.None? && forall i :: 0 <= i < |hs| ==> WellFormedHunk(hs[i])
    ensures var next := FeedAll(st, HunkLines(hs));
            && next.files == st.files && next.curFile.Some?
            && PushHunk(next.curFile.value, next.curHunk) == st.curFile.value.(hunks := st.curFile.value.hunks + hs)
  {
    if |hs| == 0 {
      assert st.curFile.value.hunks + hs == st.curFile.value.hunks;
    } else {
      var init, last := hs[..|hs| - 1], hs[|hs| - 1];
      FeedHunks(st, init);
      var mid := FeedAll(st, HunkLines(init));
      FeedAllConcat(st, HunkLines(init), [last.header] + last.lines);
      assert HunkLines(hs) == HunkLines(init) + ([last.header] + last.lines);
      FeedHunk(mid, last);
      assert hs == init + [last];
      assert st.curFile.value.hunks + init + [last] == st.curFile.value.hunks + hs;
    }
  }

  lemma FeedHeaders(st: Parser, headers: seq<string>)
    requires |headers| > 0 && HasPrefix(headers[0], FILE_MARK)
             && forall i :: 0 < i < |headers| ==> PlainLine(headers[i])
    ensures FeedAll(st, headers) == Parser(Flush(st), Some(File(headers, [])), None)
  {
    assert headers == [headers[0]] + headers[1..];
    FeedAllConcat(st, [headers[0]], headers[1..]);
    assert [headers[0]][..0] == [];
    FeedBody(Feed(st, headers[0]), headers[1..]);
  }

  lemma FeedFile(st: Parser, f: File)
    requires WellFormedFile(f)
    ensures Flush(FeedAll(st, f.headers + HunkLines(f.hunks))) == Flush(st) + [f]
  {
    hide FeedAll, HunkLines;
    FeedAllConcat(st, f.headers, HunkLines(f.hunks));
    FeedHeaders(st, f.headers);
    FeedHunks(FeedAll(st, f.headers), f.hunks);
    assert [] + f.hunks == f.hunks;
  }

  /** Parsing rendered files gives the files back. */
  lemma {:induction false} ParseOfRendered(fs: seq<File>)
    requires WellFormed(fs)
    ensures Parse(FileLines(fs)) == fs
  {
    if |fs| > 0 {
      var init, f := fs[..|fs| - 1], fs[|fs| - 1];
      ParseOfRendered(init);
      FileLinesPush(init, f);
      assert fs == init + [f];
      hide FeedAll, HunkLines, WellFormedFile, FileLines;
      FeedAllConcat(EMPTY, FileLines(init), f.headers + HunkLines(f.hunks));
      FeedFile(FeedAll(EMPTY, FileLines(init)), f);
    }
  }

  lemma {:induction false} ParsedIsWellFormed(lines: seq<string>)
    ensures var st := FeedAll(EMPTY, lines);
            && WellFormed(st.files)
            && (st.curFile.Some? ==> WellFormedFile(st.curFile.value))
            && (st.curHunk.Some? ==> WellFormedHunk(st.curHunk.value))
    ensures WellFormed(Parse(lines))
  {
    if |lines| > 0 {
      hide HasPrefix;
      ParsedIsWellFormed(lines[..|lines| - 1]);
    }
  }

  // ----- compressing a block -----------------------------------------------

  function CompressHunks(hs: seq<Hunk>): seq<Hunk>
  {
    seq(|hs|, i requires 0 <= i < |hs| => hs[i].(lines := Elide(hs[i].lines)))
  }

  function CompressFiles(fs: seq<File>): seq<File>
  {
    seq(|fs|, i requires 0 <= i < |fs| => fs[i].(hunks := CompressHunks(fs[i].hunks)))
  }

  lemma ElideKeepsPlain(lines: seq<string>)
    requires forall i :: 0 <= i < |lines| ==> PlainLine(lines[i])
    ensures forall i :: 0 <= i < |Elide(lines)| ==> PlainLine(Elide(lines)[i])
  {
    forall i: nat | i < |Elide(lines)|
      ensures PlainLine(Elide(lines)[i])
    {
      KeptIsItself(lines, i);
      assert ELISION[0] == '.' && FILE_MARK[0] == 'd' && HUNK_MARK[0] == '@';
    }
  }

  lemma CompressKeepsWellFormed(fs: seq<File>)
    requires WellFormed(fs)
    ensures WellFormed(CompressFiles(fs))
  {
    forall i, j | 0 <= i < |fs| && 0 <= j < |fs[i].hunks|
      ensures WellFormedHunk(CompressFiles(fs)[i].hunks[j])
    {
      assert WellFormedFile(fs[i]) && WellFormedHunk(fs[i].hunks[j]);
      ElideKeepsPlain(fs[i].hunks[j].lines);
    }
    forall i | 0 <= i < |fs|
      ensures WellFormedFile(CompressFiles(fs)[i])
    {
      assert WellFormedFile(fs[i]);
    }
  }

  /** The lines of the compressed block. */
  function CompressBlock(lines: seq<string>): seq<string>
  {
    FileLines(CompressFiles(Parse(lines)))
  }

  /** Compressing the lines of a compressed block again changes nothing. */
  lemma CompressBlockIdempotent(lines: seq<string>)
    ensures CompressBlock(CompressBlock(lines)) == CompressBlock(lines)
  {
    hide Elide;
    var fs := CompressFiles(Parse(lines));
    ParsedIsWellFormed(lines);
    CompressKeepsWellFormed(Parse(lines));
    ParseOfRendered(fs);
    forall i, j | 0 <= i < |fs| && 0 <= j < |fs[i].hunks|
      ensures Elide(fs[i].hunks[j].lines) == fs[i].hunks[j].lines
    {
      ElideIdempotent(Parse(lines)[i].hunks[j].lines);
    }
    forall i | 0 <= i < |fs|
      ensures CompressFiles(fs)[i] == fs[i]
    {
      assert CompressHunks(fs[i].hunks) == fs[i].hunks;
    }
    assert CompressFiles(fs) == fs;
  }
}
