// The diff compressor on whole texts: finding diff blocks, compressing them, and
// why a second run finds nothing left to do.
module DiffText {
  import opened Text
  import opened DiffHunks

  predicate DiffLine(l: string)
  {
    || HasPrefix(l, "diff ") || HasPrefix(l, "index ") || HasPrefix(l, "similarity ")
    || HasPrefix(l, "rename ") || HasPrefix(l, "new file ") || HasPrefix(l, "deleted file ")
    || HasPrefix(l, "--- ") || HasPrefix(l, "+++ ") || HasPrefix(l, "@@ ")
    || HasPrefix(l, "+") || HasPrefix(l, "-") || HasPrefix(l, " ") || HasPrefix(l, "\\")
    || l == ""
  }

  /** Where the run of diff lines that starts at `i` ends. */
  function RunEnd(lines: seq<string>, i: nat): (k: nat)
    requires i <= |lines|
    ensures i <= k <= |lines|
    ensures forall j :: i <= j < k ==> DiffLine(lines[j])
    ensures k < |lines| ==> !DiffLine(lines[k])
    decreases |lines| - i
  {
    if i < |lines| && DiffLine(lines[i]) then RunEnd(lines, i + 1) else i
  }

  /** The line that announces an offloaded block, when the store took it. */
  type Offload = seq<string> -> Option<string>

  predicate OffloadSound(offload: Offload, block: seq<string>)
  {
    offload(block).Some? ==>
      |block| >= 50 && '\n' !in offload(block).value && HasPrefix(offload(block).value, "[Original git diff (")
  }

  /** The lines that replace a block, or None when nothing is saved. */
  function CompressSingle(block: seq<string>, offload: Offload): Option<seq<string>>
  {
    if |Parse(block)| == 0 || |JoinLines(CompressBlock(block))| >= |JoinLines(block)| then None
    else
      match offload(block)
      case None => Some(CompressBlock(block))
      case Some(header) => Some([header] + CompressBlock(block))
  }

  function CompressLines(lines: seq<string>, offload: Offload): seq<string>
    decreases |lines|
  {
    if |lines| == 0 then []
    else if HasPrefix(lines[0], FILE_MARK) then
      var n := RunEnd(lines, 1);
      (match CompressSingle(lines[..n], offload)
       case None => lines[..n]
       case Some(c) => c)
      + CompressLines(lines[n..], offload)
    else [lines[0]] + CompressLines(lines[1..], offload)
  }

  function CompressText(text: string, offload: Offload): string
  {
    JoinLines(CompressLines(Lines(text), offload))
  }

  lemma PlainLineIsKept(l: string, rest: seq<string>, offload: Offload)
    requires !HasPrefix(l, FILE_MARK)
    ensures CompressLines([l] + rest, offload) == [l] + CompressLines(rest, offload)
  {
    assert ([l] + rest)[1..] == rest;
  }

  lemma {:induction false} PlainLinesAreKept(ls: seq<string>, rest: seq<string>, offload: Offload)
    requires forall i :: 0 <= i < |ls| ==> !HasPrefix(ls[i], FILE_MARK)
    ensures CompressLines(ls + rest, offload) == ls + CompressLines(rest, offload)
  {
    hide CompressLines, HasPrefix;
    if |ls| == 0 {
      assert ls + rest == rest && ls + CompressLines(rest, offload) == CompressLines(rest, offload);
    } else {
      PlainLinesAreKept(ls[1..], rest, offload);
      PlainLineIsKept(ls[0], ls[1..] + rest, offload);
      FrontLine(ls, rest);
      FrontLine(ls, CompressLines(rest, offload));
    }
  }

  lemma FrontLine(ls: seq<string>, rest: seq<string>)
    requires |ls| > 0
    ensures [ls[0]] + (ls[1..] + rest) == ls + rest
  {
  }

  /** Nothing, or a line no block can run over. */
  predicate Blocks(rest: seq<string>)
  {
    |rest| > 0 ==> !DiffLine(rest[0])
  }

  lemma {:induction false} RunEndOfConcat(block: seq<string>, rest: seq<string>, i: nat)
    requires i <= |block| && Blocks(rest) && forall j :: i <= j < |block| ==> DiffLine(block[j])
    ensures RunEnd(block + rest, i) == |block|
    decreases |block| - i
  {
    if i < |block| {
      RunEndOfConcat(block, rest, i + 1);
    }
  }

  predicate IsBlock(block: seq<string>)
  {
    |block| > 0 && HasPrefix(block[0], FILE_MARK) && forall j :: 0 < j < |block| ==> DiffLine(block[j])
  }

  /** A block is found whole in front of anything that is no diff line. */
  lemma BlockIsFound(block: seq<string>, rest: seq<string>, offload: Offload)
    requires IsBlock(block) && Blocks(rest)
    ensures CompressLines(block + rest, offload)
         == (match CompressSingle(block, offload) case None => block case Some(c) => c) + CompressLines(rest, offload)
  {
    hide CompressSingle;
    RunEndOfConcat(block, rest, 1);
    assert (block + rest)[..|block|] == block && (block + rest)[|block|..] == rest;
  }

  lemma {:induction false} FixedBlockIsKept(block: seq<string>, rest: seq<string>, offload: Offload)
    requires IsBlock(block) && Blocks(rest) && CompressBlock(block) == block
    ensures CompressLines(block + rest, offload) == block + CompressLines(rest, offload)
  {
    BlockIsFound(block, rest, offload);
  }

  // ----- compressed hunks, and their beginnings ----------------------------

  predicate DiffLines(ls: seq<string>)
  {
    forall i :: 0 <= i < |ls| ==> DiffLine(ls[i])
  }

  lemma ElisionIsNoDiffLine()
    ensures !DiffLine(ELISION)
  {
    assert ELISION[0] == '.';
  }

  /** Kept or marked: in a compressed hunk of diff lines the text itself tells. */
  predicate Sharp(e: seq<string>)
  {
    forall j: nat :: j < |e| ==> (Keep(e, j) <==> e[j] != ELISION) && (e[j] != ELISION ==> DiffLine(e[j]))
  }

  lemma ElidedIsSharp(lines: seq<string>)
    requires DiffLines(lines)
    ensures Sharp(Elide(lines))
  {
    hide Keep, DiffLine;
    ElisionIsNoDiffLine();
    forall j: nat | j < |Elide(lines)|
      ensures (Keep(Elide(lines), j) <==> Elide(lines)[j] != ELISION)
              && (Elide(lines)[j] != ELISION ==> DiffLine(Elide(lines)[j]))
    {
      OutputKeeps(lines, j);
      KeptIsItself(lines, j);
      assert DiffLine(lines[Sources(lines, |lines|)[j]]);
    }
  }

  lemma {:induction false} AllKeptIsFixed(e: seq<string>, n: nat)
    requires n <= |e| && forall j: nat :: j < |e| ==> Keep(e, j)
    ensures Elided(e, n) == e[..n]
  {
    if n > 0 {
      AllKeptIsFixed(e, n - 1);
      assert e[..n] == e[..n - 1] + [e[n - 1]];
    }
  }

  /** The lines before the first marker of a compressed hunk need no marker. */
  lemma BeginningIsFixed(e: seq<string>, m: nat)
    requires Sharp(e) && m <= |e| && (m < |e| ==> e[m] == ELISION)
    requires forall j :: 0 <= j < m ==> e[j] != ELISION
    ensures Elide(e[..m]) == e[..m] && DiffLines(e[..m])
  {
    hide DiffLine;
    var x := e[..m];
    assert m < |e| ==> !Keep(e, m);
    forall j: nat | j < |x|
      ensures Keep(x, j)
    {
      assert Keep(e, j);
      var c :| 0 <= c < |e| && j - CONTEXT <= c <= j + CONTEXT && IsChange(e[c]);
      if c >= m {
        assert false;
      }
      assert x[c] == e[c];
    }
    AllKeptIsFixed(x, m);
    assert x[..m] == x;
  }

  /** The first marker of a hunk, or its length. */
  function FirstElision(e: seq<string>): (m: nat)
    ensures m <= |e| && (m < |e| ==> e[m] == ELISION)
    ensures forall j :: 0 <= j < m ==> e[j] != ELISION
  {
    if |e| == 0 || e[0] == ELISION then 0 else 1 + FirstElision(e[1..])
  }

  // ----- compressed files, cut at the first marker -------------------------

  predicate SharpHunk(h: Hunk)
  {
    WellFormedHunk(h) && Sharp(h.lines)
  }

  predicate SharpFile(f: File)
  {
    WellFormedFile(f) && DiffLines(f.headers) && forall i :: 0 <= i < |f.hunks| ==> SharpHunk(f.hunks[i])
  }

  /** All of it comes before any marker. */
  predicate Unmarked(h: Hunk)
  {
    Elide(h.lines) == h.lines && DiffLines(h.lines)
  }

  predicate UnmarkedFile(f: File)
  {
    WellFormedFile(f) && DiffLines(f.headers) && forall i :: 0 <= i < |f.hunks| ==> Unmarked(f.hunks[i])
  }

  lemma {:induction false} HunkLinesConcat(a: seq<Hunk>, b: seq<Hunk>)
    ensures HunkLines(a + b) == HunkLines(a) + HunkLines(b)
  {
    if |b| == 0 {
      assert a + b == a;
    } else {
      assert (a + b)[..|a + b| - 1] == a + b[..|b| - 1];
      HunkLinesConcat(a, b[..|b| - 1]);
    }
  }

  lemma {:induction false} FileLinesConcat(a: seq<File>, b: seq<File>)
    ensures FileLines(a + b) == FileLines(a) + FileLines(b)
  {
    if |b| == 0 {
      assert a + b == a;
    } else {
      assert (a + b)[..|a + b| - 1] == a + b[..|b| - 1];
      FileLinesConcat(a, b[..|b| - 1]);
    }
  }

  lemma HunkLinesOne(h: Hunk)
    ensures HunkLines([h]) == [h.header] + h.lines
  {
    assert [h][..0] == [];
  }

  lemma FileLinesOne(f: File)
    ensures FileLines([f]) == f.headers + HunkLines(f.hunks)
  {
    assert [f][..0] == [];
  }

  lemma HunkHeaderIsDiffLine(l: string)
    requires HasPrefix(l, HUNK_MARK)
    ensures DiffLine(l) && !HasPrefix(l, FILE_MARK)
  {
    MarksDiffer(l);
  }

  /** Hunks cut before their first marker: unmarked hunks, then lines that are
      empty or start with the marker and open no file. */
  lemma {:induction false} CutHunks(hs: seq<Hunk>) returns (before: seq<Hunk>, after: seq<string>)
    requires forall i :: 0 <= i < |hs| ==> SharpHunk(hs[i])
    ensures HunkLines(hs) == HunkLines(before) + after
    ensures forall i :: 0 <= i < |before| ==> WellFormedHunk(before[i]) && Unmarked(before[i])
    ensures after == [] || after[0] == ELISION
    ensures forall i :: 0 <= i < |after| ==> !HasPrefix(after[i], FILE_MARK)
    ensures after == [] ==> before == hs
  {
    hide DiffLine, Elide, Sharp, HunkLines, Unmarked;
    if |hs| == 0 {
      before, after := [], [];
      assert HunkLines(before) + after == HunkLines(hs);
    } else {
      var h, rest := hs[0], hs[1..];
      assert hs == [h] + rest && SharpHunk(hs[0]);
      HunkLinesConcat([h], rest);
      CutHunk(h);
      var m := FirstElision(h.lines);
      if m == |h.lines| {
        var before', after' := CutHunks(rest);
        before, after := [h] + before', after';
        HunkLinesConcat([h], before');
        HunksRegrouped(HunkLines([h]), HunkLines(before'), after', HunkLines(rest));
        assert h.lines[..m] == h.lines;
      } else {
        before, after := [Hunk(h.header, h.lines[..m])], h.lines[m..] + HunkLines(rest);
        HunksRegrouped(HunkLines(before), h.lines[m..], HunkLines(rest), HunkLines([h]));
        HunkLinesOpenNoFile(rest);
      }
    }
  }

  lemma HunksRegrouped(a: seq<string>, b: seq<string>, c: seq<string>, d: seq<string>)
    ensures d == b + c ==> a + d == a + b + c
    ensures d == a + b ==> d + c == a + (b + c)
  {
  }

  /** One hunk: the part before its first marker, and what is left of it. */
  lemma CutHunk(h: Hunk)
    requires SharpHunk(h)
    ensures var m := FirstElision(h.lines);
            && HunkLines([h]) == HunkLines([Hunk(h.header, h.lines[..m])]) + h.lines[m..]
            && WellFormedHunk(Hunk(h.header, h.lines[..m])) && Unmarked(Hunk(h.header, h.lines[..m]))
  {
    hide DiffLine, Elide, Sharp;
    var m := FirstElision(h.lines);
    BeginningIsFixed(h.lines, m);
    HunkLinesOne(h);
    HunkLinesOne(Hunk(h.header, h.lines[..m]));
    assert h.lines == h.lines[..m] + h.lines[m..];
  }

  lemma {:induction false} HunkLinesOpenNoFile(hs: seq<Hunk>)
    requires forall i :: 0 <= i < |hs| ==> WellFormedHunk(hs[i])
    ensures forall i :: 0 <= i < |HunkLines(hs)| ==> !HasPrefix(HunkLines(hs)[i], FILE_MARK)
  {
    if |hs| > 0 {
      HunkLinesOpenNoFile(hs[..|hs| - 1]);
      MarksDiffer(hs[|hs| - 1].header);
    }
  }

  /** Files cut before their first marker: unmarked files whose lines form one
      block, the rest of the file the marker is in, and the files after it. */
  lemma {:induction false} CutFiles(fs: seq<File>) returns (before: seq<File>, after: seq<string>, rest: seq<File>)
    requires forall i :: 0 <= i < |fs| ==> SharpFile(fs[i])
    ensures FileLines(fs) == FileLines(before) + (after + FileLines(rest))
    ensures forall i :: 0 <= i < |before| ==> UnmarkedFile(before[i])
    ensures if after == [] then rest == [] else after[0] == ELISION
    ensures forall i :: 0 <= i < |after| ==> !HasPrefix(after[i], FILE_MARK)
    ensures |fs| > 0 ==> |before| > 0
    ensures |rest| < |fs| || (rest == [] && fs == [])
    ensures forall i :: 0 <= i < |rest| ==> SharpFile(rest[i])
  {
    hide DiffLine, Elide, Sharp, FileLines, UnmarkedFile, SharpFile;
    if |fs| == 0 {
      before, after, rest := [], [], [];
      assert FileLines(before) + (after + FileLines(rest)) == FileLines(fs) by {
        EmptyFiles();
      }
    } else {
      var f, others := fs[0], fs[1..];
      assert fs == [f] + others && SharpFile(fs[0]);
      FileLinesConcat([f], others);
      var head, tail := CutFile(f);
      if tail == [] {
        var before', after', rest' := CutFiles(others);
        before, after, rest := [f] + before', after', rest';
        FileLinesConcat([f], before');
        HunksRegrouped(FileLines([f]), FileLines(before'), after' + FileLines(rest'), FileLines(others));
      } else {
        before, after, rest := [head], tail, others;
        HunksRegrouped(FileLines([head]), tail, FileLines(others), FileLines([f]));
      }
    }
  }

  lemma EmptyFiles()
    ensures FileLines([]) == []
  {
  }

  /** One file: the part before its first marker, and the lines left of it. */
  lemma CutFile(f: File) returns (head: File, tail: seq<string>)
    requires SharpFile(f)
    ensures FileLines([f]) == FileLines([head]) + tail
    ensures UnmarkedFile(head)
    ensures tail == [] ==> head == f
    ensures tail != [] ==> tail[0] == ELISION
    ensures forall i :: 0 <= i < |tail| ==> !HasPrefix(tail[i], FILE_MARK)
  {
    hide DiffLine, Elide, Sharp, HunkLines;
    var hunks;
    hunks, tail := CutHunks(f.hunks);
    head := File(f.headers, hunks);
    FileLinesOne(f);
    FileLinesOne(head);
    assert f.headers + (HunkLines(hunks) + tail) == f.headers + HunkLines(hunks) + tail;
  }

  lemma {:induction false} UnmarkedHunkLines(hs: seq<Hunk>)
    requires forall i :: 0 <= i < |hs| ==> WellFormedHunk(hs[i]) && Unmarked(hs[i])
    ensures DiffLines(HunkLines(hs))
  {
    hide DiffLine, Elide;
    if |hs| > 0 {
      UnmarkedHunkLines(hs[..|hs| - 1]);
      HunkHeaderIsDiffLine(hs[|hs| - 1].header);
    }
  }

  lemma {:induction false} UnmarkedFileLines(fs: seq<File>)
    requires forall i :: 0 <= i < |fs| ==> UnmarkedFile(fs[i])
    ensures DiffLines(FileLines(fs))
    ensures |fs| > 0 ==> IsBlock(FileLines(fs))
  {
    hide DiffLine, Elide;
    if |fs| > 0 {
      var f := fs[|fs| - 1];
      UnmarkedFileLines(fs[..|fs| - 1]);
      UnmarkedHunkLines(f.hunks);
      if |fs| == 1 {
        assert FileLines(fs)[0] == f.headers[0];
      }
    }
  }

  /** Compressing the lines of unmarked files changes nothing. */
  lemma {:induction false} UnmarkedFilesAreFixed(fs: seq<File>)
    requires forall i :: 0 <= i < |fs| ==> UnmarkedFile(fs[i])
    ensures CompressBlock(FileLines(fs)) == FileLines(fs)
  {
    hide DiffLine, Elide, FileLines, Parse, WellFormedFile;
    ParseOfRendered(fs);
    UnmarkedFilesAreKept(fs);
  }

  lemma UnmarkedFilesAreKept(fs: seq<File>)
    requires forall i :: 0 <= i < |fs| ==> UnmarkedFile(fs[i])
    ensures CompressFiles(fs) == fs
  {
    hide UnmarkedFile, CompressHunks;
    forall i | 0 <= i < |fs|
      ensures CompressFiles(fs)[i] == fs[i]
    {
      UnmarkedHunksAreKept(fs[i]);
    }
  }

  lemma UnmarkedHunksAreKept(f: File)
    requires UnmarkedFile(f)
    ensures CompressHunks(f.hunks) == f.hunks
  {
    hide DiffLines, Elide, WellFormedFile;
  }

  /** A second run leaves a compressed block alone, whatever fixed text follows. */
  lemma {:induction false} CompressedFilesAreKept(fs: seq<File>, rest: seq<string>, offload: Offload)
    requires (forall i :: 0 <= i < |fs| ==> SharpFile(fs[i])) && Blocks(rest)
    ensures CompressLines(FileLines(fs) + rest, offload) == FileLines(fs) + CompressLines(rest, offload)
    decreases |fs|
  {
    if |fs| == 0 {
      assert FileLines(fs) == [] && FileLines(fs) + rest == rest;
    } else {
      var before, after, others := CutFiles(fs);
      CompressedFilesAreKept(others, rest, offload);
      KeptInPieces(before, after, others, FileLines(fs), rest, offload);
    }
  }

  lemma KeptInPieces(before: seq<File>, after: seq<string>,
                     others: seq<File>, whole: seq<string>, rest: seq<string>, offload: Offload)
    requires whole == FileLines(before) + (after + FileLines(others)) && Blocks(rest)
    requires |before| > 0 && forall i :: 0 <= i < |before| ==> UnmarkedFile(before[i])
    requires if after == [] then others == [] else after[0] == ELISION
    requires forall i :: 0 <= i < |after| ==> !HasPrefix(after[i], FILE_MARK)
    requires CompressLines(FileLines(others) + rest, offload) == FileLines(others) + CompressLines(rest, offload)
    ensures CompressLines(whole + rest, offload) == whole + CompressLines(rest, offload)
  {
    assert FileLines([]) == [];
    hide *;
    var b, o := FileLines(before), FileLines(others);
    var tail := after + (o + rest);
    UnmarkedFileLines(before);
    UnmarkedFilesAreFixed(before);
    PlainLinesAreKept(after, o + rest, offload);
    BlocksAfter(after, o, rest);
    FixedBlockIsKept(b, tail, offload);
    InPieces(b, after, o, rest);
    InPieces(b, after, o, CompressLines(rest, offload));
  }

  lemma InPieces(b: seq<string>, a: seq<string>, o: seq<string>, rest: seq<string>)
    ensures (b + (a + o)) + rest == b + (a + (o + rest))
  {
  }

  lemma BlocksAfter(after: seq<string>, o: seq<string>, rest: seq<string>)
    requires Blocks(rest) && if after == [] then o == [] else after[0] == ELISION
    ensures Blocks(after + (o + rest))
  {
    ElisionIsNoDiffLine();
    if after == [] {
      assert after + (o + rest) == rest;
    }
  }

  // ----- two runs are one --------------------------------------------------

  lemma {:induction false} PartsAreDiffLines(fs: seq<File>)
    requires DiffLines(FileLines(fs))
    ensures forall i :: 0 <= i < |fs| ==> DiffLines(fs[i].headers)
    ensures forall i, j :: 0 <= i < |fs| && 0 <= j < |fs[i].hunks| ==> DiffLines(fs[i].hunks[j].lines)
  {
    hide DiffLine;
    if |fs| > 0 {
      var init, f := fs[..|fs| - 1], fs[|fs| - 1];
      DiffLinesConcat(FileLines(init) + f.headers, HunkLines(f.hunks));
      DiffLinesConcat(FileLines(init), f.headers);
      PartsAreDiffLines(init);
      HunkPartsAreDiffLines(f.hunks);
    }
  }

  lemma DiffLinesConcat(a: seq<string>, b: seq<string>)
    ensures DiffLines(a + b) <==> DiffLines(a) && DiffLines(b)
  {
    hide DiffLine;
    assert forall i :: 0 <= i < |a| ==> (a + b)[i] == a[i];
    assert forall i :: 0 <= i < |b| ==> (a + b)[|a| + i] == b[i];
  }

  lemma {:induction false} HunkPartsAreDiffLines(hs: seq<Hunk>)
    requires DiffLines(HunkLines(hs))
    ensures forall j :: 0 <= j < |hs| ==> DiffLines(hs[j].lines)
  {
    hide DiffLine;
    if |hs| > 0 {
      var init, h := hs[..|hs| - 1], hs[|hs| - 1];
      DiffLinesConcat(HunkLines(init) + [h.header], h.lines);
      DiffLinesConcat(HunkLines(init), [h.header]);
      HunkPartsAreDiffLines(init);
    }
  }

  lemma FileMarkIsDiffLine(l: string)
    requires HasPrefix(l, FILE_MARK)
    ensures DiffLine(l)
  {
    assert FILE_MARK[..5] == "diff ";
    assert l[..5] == l[..|FILE_MARK|][..5];
  }

  lemma CompressedIsSharp(block: seq<string>)
    requires IsBlock(block)
    ensures forall i :: 0 <= i < |CompressFiles(Parse(block))| ==> SharpFile(CompressFiles(Parse(block))[i])
  {
    hide DiffLine, Elide, Sharp;
    var fs := Parse(block);
    ParsedBlock(block);
    ParsedIsWellFormed(block);
    FileMarkIsDiffLine(block[0]);
    PartsAreDiffLines(fs);
    CompressKeepsWellFormed(fs);
    forall i | 0 <= i < |fs|
      ensures SharpFile(CompressFiles(fs)[i])
    {
      assert WellFormedFile(CompressFiles(fs)[i]);
      forall j | 0 <= j < |fs[i].hunks|
        ensures SharpHunk(CompressFiles(fs)[i].hunks[j])
      {
        ElidedIsSharp(fs[i].hunks[j].lines);
      }
    }
  }

  lemma OffloadHeaderIsPlain(l: string)
    requires HasPrefix(l, "[Original git diff (")
    ensures !HasPrefix(l, FILE_MARK) && !DiffLine(l)
  {
    assert l[0] == '[';
  }

  /** After a block comes nothing, or a line that no block could take. */
  lemma {:induction false} CompressedStillBlocks(rest: seq<string>, offload: Offload)
    requires Blocks(rest)
    ensures Blocks(CompressLines(rest, offload))
  {
    if |rest| > 0 && HasPrefix(rest[0], FILE_MARK) {
      FileMarkIsDiffLine(rest[0]);
    }
  }

  /** Running the compressor on its own output changes no line. */
  lemma {:induction false} CompressTwice(lines: seq<string>, offload: Offload)
    requires forall block :: OffloadSound(offload, block)
    ensures CompressLines(CompressLines(lines, offload), offload) == CompressLines(lines, offload)
    decreases |lines|
  {
    if |lines| > 0 {
      if HasPrefix(lines[0], FILE_MARK) {
        var n := RunEnd(lines, 1);
        var block, rest := lines[..n], lines[n..];
        assert lines == block + rest;
        BlockIsFound(block, rest, offload);
        CompressTwice(rest, offload);
        CompressedStillBlocks(rest, offload);
        SecondRunOfBlock(block, CompressLines(rest, offload), offload);
      } else {
        CompressTwice(lines[1..], offload);
        PlainLineIsKept(lines[0], CompressLines(lines[1..], offload), offload);
      }
    }
  }

  lemma SecondRunOfBlock(block: seq<string>, rest: seq<string>, offload: Offload)
    requires IsBlock(block) && Blocks(rest) && OffloadSound(offload, block)
    requires CompressLines(rest, offload) == rest
    ensures var x := match CompressSingle(block, offload) case None => block case Some(c) => c;
            CompressLines(x + rest, offload) == x + rest
  {
    hide CompressLines, DiffLine, Elide;
    match CompressSingle(block, offload)
    case None =>
      BlockIsFound(block, rest, offload);
    case Some(c) =>
      CompressedIsSharp(block);
      CompressedFilesAreKept(CompressFiles(Parse(block)), rest, offload);
      if offload(block).Some? {
        var header := offload(block).value;
        OffloadHeaderIsPlain(header);
        PlainLineIsKept(header, CompressBlock(block) + rest, offload);
        assert c + rest == [header] + (CompressBlock(block) + rest);
      }
  }

  // ----- the loops ---------------------------------------------------------

  lemma {:induction false} JoinLinesConcat(a: seq<string>, b: seq<string>)
    requires |a| > 0 && |b| > 0
    ensures JoinLines(a + b) == JoinLines(a) + "\n" + JoinLines(b)
  {
    if |a| == 1 {
      assert (a + b)[1..] == b;
    } else {
      assert (a + b)[1..] == a[1..] + b;
      JoinLinesConcat(a[1..], b);
      assert a[0] + "\n" + (JoinLines(a[1..]) + "\n" + JoinLines(b)) == JoinLines(a) + "\n" + JoinLines(b);
    }
  }

  method CompressSingleDiff(diffLines: seq<string>, offload: Offload) returns (text: string, ok: bool)
    requires IsBlock(diffLines)
    ensures ok == CompressSingle(diffLines, offload).Some?
    ensures ok ==> text == JoinLines(CompressSingle(diffLines, offload).value)
  {
    ParsedBlock(diffLines);
    var files := ParseDiff(diffLines);
    if |files| == 0 {
      return "", false;
    }
    var compressedLines := RenderFiles(files);
    var compressedStr := JoinLines(compressedLines);
    var originalStr := JoinLines(diffLines);
    if |compressedStr| >= |originalStr| {
      return "", false;
    }
    var header := offload(diffLines);
    if header.Some? {
      ParsedIsWellFormed(diffLines);
      CompressedIsNotEmpty(files);
      JoinLinesConcat([header.value], compressedLines);
      return header.value + "\n" + compressedStr, true;
    }
    return compressedStr, true;
  }

  lemma CompressedIsNotEmpty(fs: seq<File>)
    requires |fs| > 0 && WellFormed(fs)
    ensures |FileLines(CompressFiles(fs))| > 0
  {
    assert WellFormedFile(fs[|fs| - 1]);
  }

  method RenderFiles(files: seq<File>) returns (out: seq<string>)
    ensures out == FileLines(CompressFiles(files))
  {
    out := [];
    for i := 0 to |files|
      invariant out == FileLines(CompressFiles(files)[..i])
    {
      hide Elide;
      var f := files[i];
      assert CompressFiles(files)[..i + 1] == CompressFiles(files)[..i] + [CompressFiles(files)[i]];
      var hunkLines: seq<string> := [];
      for j := 0 to |f.hunks|
        invariant hunkLines == HunkLines(CompressHunks(f.hunks)[..j])
      {
        assert CompressHunks(f.hunks)[..j + 1] == CompressHunks(f.hunks)[..j] + [CompressHunks(f.hunks)[j]];
        var compressedHunkLines := CompressHunk(f.hunks[j].lines);
        hunkLines := hunkLines + [f.hunks[j].header] + compressedHunkLines;
      }
      assert CompressHunks(f.hunks)[..|f.hunks|] == CompressHunks(f.hunks);
      out := out + f.headers + hunkLines;
    }
    assert CompressFiles(files)[..|files|] == CompressFiles(files);
  }

  /** The loop that collects the lines of a block. */
  method CollectBlock(lines: seq<string>, start: nat) returns (end: nat)
    requires start < |lines| && HasPrefix(lines[start], FILE_MARK)
    ensures start < end <= |lines| && IsBlock(lines[start..end]) && Blocks(lines[end..])
  {
    end := start + 1;
    while end < |lines| && DiffLine(lines[end])
      invariant start < end <= |lines|
      invariant forall j :: start < j < end ==> DiffLine(lines[j])
    {
      end := end + 1;
    }
  }

  /** `results` joins to the same text as `done`, which is what the loop owes. */
  ghost predicate Progress(results: seq<string>, done: seq<string>)
  {
    JoinLines(results) == JoinLines(done) && (|results| == 0 <==> |done| == 0)
  }

  lemma {:induction false} ProgressPush(results: seq<string>, done: seq<string>, x: seq<string>, y: seq<string>,
                     rest: seq<string>, next: seq<string>, whole: seq<string>)
    requires Progress(results, done) && JoinLines(x) == JoinLines(y) && |x| > 0 && |y| > 0
    requires whole == done + rest && rest == y + next
    ensures Progress(results + x, done + y) && whole == done + y + next
  {
    hide JoinLines;
    AppendJoined(results, done, x, y);
    HunksRegrouped(done, y, next, rest);
  }

  method CompressAt(block: seq<string>, results: seq<string>, offload: Offload,
                    ghost done: seq<string>, ghost rest: seq<string>, ghost next: seq<string>, ghost whole: seq<string>)
      returns (resultLines: seq<string>, compressed: bool, ghost doneNext: seq<string>)
    requires IsBlock(block) && Progress(results, done) && whole == done + rest
    requires rest == (match CompressSingle(block, offload) case None => block case Some(c) => c) + next
    ensures Progress(resultLines, doneNext) && whole == doneNext + next && |doneNext| > 0
    ensures !compressed ==> doneNext == done + block
  {
    hide CompressSingle, Progress, IsBlock;
    var compressedDiff, cOk := CompressSingleDiff(block, offload);
    compressed := cOk;
    if cOk {
      var c := CompressSingle(block, offload).value;
      SingleIsNotEmpty(block, offload);
      ProgressPush(results, done, [compressedDiff], c, rest, next, whole);
      resultLines := results + [compressedDiff];
      doneNext := done + c;
    } else {
      BlockIsNotEmpty(block);
      ProgressPush(results, done, block, block, rest, next, whole);
      resultLines := results + block;
      doneNext := done + block;
    }
  }

  lemma BlockIsNotEmpty(block: seq<string>)
    requires IsBlock(block)
    ensures |block| > 0
  {
  }

  /** The text of the compressed lines, and whether any block was compressed. */
  method CompressDiffsInText(text: string, offload: Offload) returns (out: string, modified: bool)
    ensures out == CompressText(text, offload)
    ensures !modified ==> out == text
  {
    hide CompressLines, Lines, JoinLines;
    var lines := Lines(text);
    ghost var done;
    var resultLines;
    resultLines, modified, done := CompressEachBlock(lines, offload);
    out := JoinLines(resultLines);
    JoinLinesOfLines(text);
  }

  method CompressEachBlock(lines: seq<string>, offload: Offload)
      returns (resultLines: seq<string>, modified: bool, ghost done: seq<string>)
    ensures Progress(resultLines, done) && done == CompressLines(lines, offload)
    ensures !modified ==> done == lines
  {
    hide CompressLines, CompressSingle, Progress, IsBlock, Blocks, JoinLines;
    resultLines, modified, done := [], false, [];
    var i, n := 0, |lines|;
    assert lines[0..] == lines && lines[..0] == [] && lines[n..] == [] && lines[..n] == lines;
    NothingToCompress(offload);
    ghost var whole := CompressLines(lines, offload);
    ghost var rest := whole;
    while i < n
      invariant 0 <= i <= n
      invariant rest == CompressLines(lines[i..], offload) && whole == done + rest
      invariant Progress(resultLines, done)
      invariant !modified ==> done == lines[..i]
    {
      if HasPrefix(lines[i], FILE_MARK) {
        var end := CollectBlock(lines, i);
        BlockIsFound(lines[i..end], lines[end..], offload);
        SplitLines(lines, i, end);
        ghost var next := CompressLines(lines[end..], offload);
        var compressed;
        resultLines, compressed, done := CompressAt(lines[i..end], resultLines, offload, done, rest, next, whole);
        modified := modified || compressed;
        rest := next;
        i := end;
      } else {
        ghost var next := CompressLines(lines[i + 1..], offload);
        PlainLineIsKept(lines[i], lines[i + 1..], offload);
        SplitLines(lines, i, i + 1);
        ProgressPush(resultLines, done, [lines[i]], [lines[i]], rest, next, whole);
        resultLines := resultLines + [lines[i]];
        done := done + [lines[i]];
        rest := next;
        i := i + 1;
      }
    }
  }

  lemma SplitLines(lines: seq<string>, i: nat, end: nat)
    requires i < end <= |lines|
    ensures lines[i..] == lines[i..end] + lines[end..]
    ensures lines[..end] == lines[..i] + lines[i..end]
    ensures lines[i..i + 1] == [lines[i]]
  {
  }

  lemma NothingToCompress(offload: Offload)
    ensures CompressLines([], offload) == [] && Progress([], [])
  {
  }

  lemma SingleIsNotEmpty(block: seq<string>, offload: Offload)
    requires IsBlock(block) && CompressSingle(block, offload).Some?
    ensures |CompressSingle(block, offload).value| > 0
  {
    ParsedIsWellFormed(block);
    CompressedIsNotEmpty(Parse(block));
  }

  lemma {:induction false} AppendJoined(a: seq<string>, b: seq<string>, x: seq<string>, y: seq<string>)
    requires JoinLines(a) == JoinLines(b) && JoinLines(x) == JoinLines(y)
    requires |x| > 0 && |y| > 0 && (|a| == 0 <==> |b| == 0)
    ensures JoinLines(a + x) == JoinLines(b + y)
  {
    if |a| == 0 {
      assert a + x == x && b + y == y;
    } else {
      JoinLinesConcat(a, x);
      JoinLinesConcat(b, y);
    }
  }

  lemma {:induction false} CompressedHasNoLineFeeds(lines: seq<string>, offload: Offload)
    requires NoLineFeeds(lines) && forall block :: OffloadSound(offload, block)
    ensures NoLineFeeds(CompressLines(lines, offload))
    ensures |lines| > 0 ==> |CompressLines(lines, offload)| > 0
    decreases |lines|, 0
  {
    if |lines| > 0 {
      if HasPrefix(lines[0], FILE_MARK) {
        var n := RunEnd(lines, 1);
        var block, rest := lines[..n], lines[n..];
        assert lines == block + rest;
        assert IsBlock(block) && Blocks(rest);
        BlockHasNoLineFeeds(block, rest, offload);
      } else {
        PlainLineIsKept(lines[0], lines[1..], offload);
        assert lines == [lines[0]] + lines[1..];
        hide CompressLines;
        CompressedHasNoLineFeeds(lines[1..], offload);
        NoLineFeedsConcat([lines[0]], CompressLines(lines[1..], offload));
      }
    }
  }

  lemma BlockHasNoLineFeeds(block: seq<string>, rest: seq<string>, offload: Offload)
    requires IsBlock(block) && Blocks(rest) && NoLineFeeds(block) && NoLineFeeds(rest)
    requires forall b :: OffloadSound(offload, b)
    ensures NoLineFeeds(CompressLines(block + rest, offload)) && |CompressLines(block + rest, offload)| > 0
    decreases |rest|, 1
  {
    hide CompressLines, CompressSingle, NoLineFeeds, IsBlock, Blocks;
    BlockIsFound(block, rest, offload);
    CompressedHasNoLineFeeds(rest, offload);
    BlockIsNotEmpty(block);
    var x := match CompressSingle(block, offload) case None => block case Some(c) => c;
    if CompressSingle(block, offload).Some? {
      SingleIsNotEmpty(block, offload);
      SingleHasNoLineFeeds(block, offload);
    }
    NoLineFeedsConcat(x, CompressLines(rest, offload));
  }

  lemma SingleHasNoLineFeeds(block: seq<string>, offload: Offload)
    requires IsBlock(block) && NoLineFeeds(block) && OffloadSound(offload, block)
             && CompressSingle(block, offload).Some?
    ensures NoLineFeeds(CompressSingle(block, offload).value)
  {
    ParsedBlock(block);
    FilesWithoutLineFeeds(Parse(block));
  }

  lemma {:induction false} FilesWithoutLineFeeds(fs: seq<File>)
    requires NoLineFeeds(FileLines(fs))
    ensures NoLineFeeds(FileLines(CompressFiles(fs)))
  {
    hide Elide;
    if |fs| > 0 {
      var init, f := fs[..|fs| - 1], fs[|fs| - 1];
      NoLineFeedsConcat(FileLines(init) + f.headers, HunkLines(f.hunks));
      NoLineFeedsConcat(FileLines(init), f.headers);
      FilesWithoutLineFeeds(init);
      HunksWithoutLineFeeds(f.hunks);
      assert CompressFiles(fs)[..|fs| - 1] == CompressFiles(init);
    }
  }

  lemma {:induction false} HunksWithoutLineFeeds(hs: seq<Hunk>)
    requires NoLineFeeds(HunkLines(hs))
    ensures NoLineFeeds(HunkLines(CompressHunks(hs)))
  {
    if |hs| > 0 {
      var init, h := hs[..|hs| - 1], hs[|hs| - 1];
      NoLineFeedsConcat(HunkLines(init) + [h.header], h.lines);
      NoLineFeedsConcat(HunkLines(init), [h.header]);
      HunksWithoutLineFeeds(init);
      ElidedWithoutLineFeeds(h.lines, |h.lines|);
      assert CompressHunks(hs)[..|hs| - 1] == CompressHunks(init);
    }
  }

  lemma {:induction false} ElidedWithoutLineFeeds(lines: seq<string>, n: nat)
    requires n <= |lines| && NoLineFeeds(lines)
    ensures NoLineFeeds(Elided(lines, n))
  {
    if n > 0 {
      hide Keep;
      ElidedWithoutLineFeeds(lines, n - 1);
    }
  }

  lemma NoLineFeedsConcat(a: seq<string>, b: seq<string>)
    ensures NoLineFeeds(a + b) <==> NoLineFeeds(a) && NoLineFeeds(b)
  {
    assert forall i :: 0 <= i < |a| ==> (a + b)[i] == a[i];
    assert forall i :: 0 <= i < |b| ==> (a + b)[|a| + i] == b[i];
  }

  /** Compressing the diffs of a compressed text changes nothing, for every text. */
  lemma CompressTextIdempotent(text: string, offload: Offload)
    requires forall block :: OffloadSound(offload, block)
    ensures CompressText(CompressText(text, offload), offload) == CompressText(text, offload)
  {
    var lines := Lines(text);
    LinesHaveNoLineFeeds(text);
    CompressedHasNoLineFeeds(lines, offload);
    LinesOfJoinLines(CompressLines(lines, offload));
    CompressTwice(lines, offload);
  }
}
