// What the diff compressor writes, told line by line from positions in the input: which
// lines go, where a marker stands for them, and where a block is announced.
module DiffPositions {
  import opened Text
  import opened DiffHunks
  import opened DiffText

  // ----- what a position in a text is --------------------------------------

  /** A diff that opens at `s` runs on through `i`. */
  predicate Runs(lines: seq<string>, s: int, i: int)
  {
    && 0 <= s <= i < |lines| && HasPrefix(lines[s], FILE_MARK)
    && forall j :: s < j <= i ==> DiffLine(lines[j])
  }

  predicate InDiff(lines: seq<string>, i: int)
  {
    exists s :: 0 <= s <= i && Runs(lines, s, i)
  }

  /** A line in the body of the hunk whose header stands at `h`. */
  predicate InHunk(lines: seq<string>, h: int, i: int)
  {
    && 0 <= h < i < |lines| && HasPrefix(lines[h], HUNK_MARK) && InDiff(lines, h)
    && forall j :: h < j <= i ==> DiffLine(lines[j]) && PlainLine(lines[j])
  }

  /** A line in the body of a hunk that has no change within two lines in that hunk. */
  ghost predicate Idle(lines: seq<string>, i: int)
  {
    exists h :: IdleIn(lines, h, i)
  }

  ghost predicate IdleIn(lines: seq<string>, h: int, i: int)
  {
    InHunk(lines, h, i) && forall m :: i - 2 <= m <= i + 2 && InHunk(lines, h, m) ==> !IsChange(lines[m])
  }

  /** The first `n` lines without the idle ones, with one marker for each run of them. */
  ghost function Thinned(lines: seq<string>, n: nat): seq<string>
    requires n <= |lines|
  {
    if n == 0 then [] else Thinned(lines, n - 1) + Thin(lines, n - 1)
  }

  ghost function Thin(lines: seq<string>, i: nat): seq<string>
    requires i < |lines|
  {
    if !Idle(lines, i) then [lines[i]] else if Idle(lines, i - 1) then [] else ["..."]
  }

  /** A change line by its characters: a sign that is not the first of three. */
  lemma ChangeByCharacters(l: string)
    ensures IsChange(l) <==> |l| > 0 && l[0] in "+-" && !(|l| >= 3 && l[0] == l[1] == l[2])
  {
    var three := if |l| >= 3 then l[..3] else l;
    assert |l| >= 3 ==> (three == "+++" <==> l[0] == '+' && l[1] == '+' && l[2] == '+');
    assert |l| >= 3 ==> (three == "---" <==> l[0] == '-' && l[1] == '-' && l[2] == '-');
    assert |l| >= 1 ==> (l[..1] == "+" <==> l[0] == '+') && (l[..1] == "-" <==> l[0] == '-');
    assert HasPrefix(l, "+") <==> |l| >= 1 && l[..1] == "+";
    assert HasPrefix(l, "-") <==> |l| >= 1 && l[..1] == "-";
    assert HasPrefix(l, "+++") <==> |l| >= 3 && l[..3] == "+++";
    assert HasPrefix(l, "---") <==> |l| >= 3 && l[..3] == "---";
  }

  // ----- one block ---------------------------------------------------------

  /** The lines cannot be in a hunk that begins before them. */
  predicate Parted(b: seq<string>)
  {
    |b| > 0 ==> !(DiffLine(b[0]) && PlainLine(b[0]))
  }

  lemma SameRuns(a: seq<string>, b: seq<string>, s: int, i: int)
    requires i < |a|
    ensures Runs(a + b, s, i) <==> Runs(a, s, i)
  {
    hide HasPrefix, DiffLine;
    assert forall j :: 0 <= j < |a| ==> (a + b)[j] == a[j];
  }

  lemma SameInDiff(a: seq<string>, b: seq<string>, i: int)
    requires i < |a|
    ensures InDiff(a + b, i) <==> InDiff(a, i)
  {
    hide Runs;
    forall s
      ensures Runs(a + b, s, i) <==> Runs(a, s, i)
    {
      SameRuns(a, b, s, i);
    }
  }

  lemma SameInHunk(a: seq<string>, b: seq<string>, h: int, i: int)
    requires i < |a|
    ensures InHunk(a + b, h, i) <==> InHunk(a, h, i)
  {
    hide HasPrefix, DiffLine, InDiff, PlainLine;
    assert forall j :: 0 <= j < |a| ==> (a + b)[j] == a[j];
    if h < |a| {
      SameInDiff(a, b, h);
    }
  }

  /** A hunk of the first part ends with it. */
  lemma HunkEndsBefore(a: seq<string>, b: seq<string>, h: int, i: int)
    requires Parted(b) && h < |a| <= i
    ensures !InHunk(a + b, h, i)
  {
    hide HasPrefix, DiffLine, InDiff, PlainLine;
    if |a| < |a + b| {
      assert (a + b)[|a|] == b[0];
    }
  }

  /** Nothing behind a header, or outside the diff, matters to the lines before. */
  lemma IdleBefore(a: seq<string>, b: seq<string>, i: int)
    requires Parted(b) && i < |a|
    ensures Idle(a + b, i) <==> Idle(a, i)
  {
    hide InHunk, IsChange;
    forall h
      ensures IdleIn(a + b, h, i) <==> IdleIn(a, h, i)
    {
      SameInHunk(a, b, h, i);
      HunkBounds(a, h, i);
      forall m
        ensures h < |a| ==> (InHunk(a + b, h, m) <==> InHunk(a, h, m))
      {
        if m < |a| {
          SameInHunk(a, b, h, m);
        } else if h < |a| {
          HunkEndsBefore(a, b, h, m);
          OutOfBounds(a, h, m);
        }
      }
      forall m
        ensures InHunk(a, h, m) ==> 0 <= m < |a|
      {
        HunkBounds(a, h, m);
      }
      assert forall m :: 0 <= m < |a| ==> (a + b)[m] == a[m];
    }
  }

  lemma HunkBounds(lines: seq<string>, h: int, i: int)
    ensures InHunk(lines, h, i) ==> 0 <= h < i < |lines|
  {
  }

  lemma OutOfBounds(lines: seq<string>, h: int, i: int)
    requires i >= |lines|
    ensures !InHunk(lines, h, i)
  {
  }

  lemma {:induction false} ThinnedBefore(a: seq<string>, b: seq<string>, n: nat)
    requires Parted(b) && n <= |a|
    ensures Thinned(a + b, n) == Thinned(a, n)
  {
    hide Idle, Parted;
    if n > 0 {
      ThinnedBefore(a, b, n - 1);
      IdleBefore(a, b, n - 1);
      IdleBefore(a, b, n - 2);
    }
  }

  /** Lines that are no hunk body are all kept. */
  lemma {:induction false} HeadersStay(lines: seq<string>, from: nat, n: nat)
    requires from <= n <= |lines| && forall i :: from <= i < n ==> !Idle(lines, i)
    ensures Thinned(lines, n) == Thinned(lines, from) + lines[from..n]
  {
    hide Idle;
    if from < n {
      HeadersStay(lines, from, n - 1);
      assert lines[from..n] == lines[from..n - 1] + [lines[n - 1]];
    } else {
      assert lines[from..n] == [];
    }
  }

  lemma HeadersAreNotIdle(a: seq<string>, headers: seq<string>, i: nat)
    requires |headers| > 0 && HasPrefix(headers[0], FILE_MARK) && |a| <= i < |a| + |headers|
    requires forall j :: 0 < j < |headers| ==> PlainLine(headers[j])
    ensures !Idle(a + headers, i)
  {
    hide HasPrefix, DiffLine, InDiff, IsChange;
    var lines := a + headers;
    assert forall j :: |a| <= j < |lines| ==> lines[j] == headers[j - |a|];
    forall h
      ensures !InHunk(lines, h, i)
    {
      if h < |a| {
        assert !PlainLine(lines[|a|]);
      } else if h == |a| && InHunk(lines, h, i) {
        MarksDiffer(lines[h]);
      }
    }
  }

  lemma ThinnedHeaders(a: seq<string>, headers: seq<string>)
    requires |headers| > 0 && HasPrefix(headers[0], FILE_MARK)
    requires forall j :: 0 < j < |headers| ==> PlainLine(headers[j])
    ensures Thinned(a + headers, |a + headers|) == Thinned(a, |a|) + headers
  {
    hide Idle, Thinned;
    var lines := a + headers;
    assert Parted(headers);
    ThinnedBefore(a, headers, |a|);
    forall i | |a| <= i < |lines|
      ensures !Idle(lines, i)
    {
      HeadersAreNotIdle(a, headers, i);
    }
    HeadersStay(lines, |a|, |lines|);
    assert lines[|a|..|lines|] == headers;
  }

  /** In a hunk body at the end of a diff the positions of the body decide. */
  lemma BodyIsIdle(a: seq<string>, header: string, body: seq<string>, k: nat)
    requires HasPrefix(header, HUNK_MARK) && InDiff(a + [header], |a|) && k < |body|
    requires forall j :: 0 <= j < |body| ==> DiffLine(body[j]) && PlainLine(body[j])
    ensures Idle(a + [header] + body, |a| + 1 + k) <==> !Keep(body, k)
  {
    hide HasPrefix, DiffLine, IsChange, InDiff, Keep;
    var lines, h := a + [header] + body, |a|;
    assert lines == (a + [header]) + body;
    SameInDiff(a + [header], body, h);
    assert lines[h] == header && forall j :: h < j < |lines| ==> lines[j] == body[j - h - 1];
    assert forall m :: InHunk(lines, h, m) <==> h < m < |lines|;
    var i := h + 1 + k;
    forall g
      ensures g != h ==> !InHunk(lines, g, i)
    {
      if g < h {
        assert !PlainLine(lines[h]);
      } else if h < g < |lines| {
        assert PlainLine(lines[g]);
      }
    }
    assert Idle(lines, h + 1 + k) <==> IdleIn(lines, h, h + 1 + k);
    KeepFrom(lines, body, h, k);
  }

  lemma KeepFrom(lines: seq<string>, body: seq<string>, h: nat, k: nat)
    requires k < |body| && |lines| == h + 1 + |body| && forall j :: h < j < |lines| ==> lines[j] == body[j - h - 1]
    requires forall m :: InHunk(lines, h, m) <==> h < m < |lines|
    ensures IdleIn(lines, h, h + 1 + k) <==> !Keep(body, k)
  {
    hide InHunk, IsChange;
    if Keep(body, k) {
      var m :| 0 <= m < |body| && k - CONTEXT <= m <= k + CONTEXT && IsChange(body[m]);
      assert lines[h + 1 + m] == body[m] && InHunk(lines, h, h + 1 + m);
    }
  }

  lemma {:induction false} ThinnedBody(a: seq<string>, header: string, body: seq<string>, k: nat)
    requires HasPrefix(header, HUNK_MARK) && InDiff(a + [header], |a|) && k <= |body|
    requires forall j :: 0 <= j < |body| ==> DiffLine(body[j]) && PlainLine(body[j])
    ensures Thinned(a + [header] + body, |a| + 1 + k) == Thinned(a, |a|) + [header] + Elided(body, k)
  {
    hide Idle, Keep, DiffLine, PlainLine, InDiff, Thin;
    var lines := a + [header] + body;
    if k == 0 {
      assert lines == a + ([header] + body);
      assert Parted([header] + body) by { HunkMarkParts(header, body); }
      ThinnedBefore(a, [header] + body, |a|);
      assert Thin(lines, |a|) == [header] by { HunkHeaderStays(a, header, body); ThinKeeps(lines, |a|); }
      assert Thinned(a, |a|) + [header] + [] == Thinned(a, |a|) + [header];
    } else {
      ThinnedBody(a, header, body, k - 1);
      ThinOfBody(a, header, body, k - 1);
      OneMore(Thinned(a, |a|) + [header], Elided(body, k - 1), Thin(lines, |a| + k));
    }
  }

  lemma ThinKeeps(lines: seq<string>, i: nat)
    requires i < |lines| && !Idle(lines, i)
    ensures Thin(lines, i) == [lines[i]]
  {
  }

  lemma ThinOfBody(a: seq<string>, header: string, body: seq<string>, k: nat)
    requires HasPrefix(header, HUNK_MARK) && InDiff(a + [header], |a|) && k < |body|
    requires forall j :: 0 <= j < |body| ==> DiffLine(body[j]) && PlainLine(body[j])
    ensures Thin(a + [header] + body, |a| + 1 + k) ==
            if Keep(body, k) then [body[k]] else if StartsRun(body, k) then [ELISION] else []
  {
    hide Idle, Keep, DiffLine, PlainLine, InDiff;
    var lines := a + [header] + body;
    BodyIsIdle(a, header, body, k);
    assert lines[|a| + 1 + k] == body[k];
    if k == 0 {
      HunkHeaderStays(a, header, body);
    } else {
      BodyIsIdle(a, header, body, k - 1);
    }
  }

  lemma OneMore(x: seq<string>, y: seq<string>, z: seq<string>)
    ensures x + y + z == x + (y + z)
  {
  }

  lemma HunkMarkParts(header: string, body: seq<string>)
    requires HasPrefix(header, HUNK_MARK)
    ensures Parted([header] + body)
  {
  }

  lemma HunkHeaderStays(a: seq<string>, header: string, body: seq<string>)
    requires HasPrefix(header, HUNK_MARK)
    ensures !Idle(a + [header] + body, |a|)
  {
    hide HasPrefix, DiffLine, InDiff, IsChange;
    var lines := a + [header] + body;
    assert lines[|a|] == header;
    forall h
      ensures !InHunk(lines, h, |a|)
    {
    }
  }

  lemma {:induction false} ThinnedHunks(a: seq<string>, hs: seq<Hunk>)
    requires forall i :: 0 <= i < |hs| ==> WellFormedHunk(hs[i])
    requires |a| > 0 && HasPrefix(a[0], FILE_MARK) && DiffLines(a + HunkLines(hs))
    ensures Thinned(a + HunkLines(hs), |a + HunkLines(hs)|) == Thinned(a, |a|) + HunkLines(CompressHunks(hs))
  {
    hide HasPrefix, DiffLine, Thinned, Elided;
    if |hs| == 0 {
      assert a + HunkLines(hs) == a;
      assert Thinned(a, |a|) + HunkLines(CompressHunks(hs)) == Thinned(a, |a|);
    } else {
      var init, h := hs[..|hs| - 1], hs[|hs| - 1];
      var before := a + HunkLines(init);
      assert a + HunkLines(hs) == before + [h.header] + h.lines;
      DiffLinesConcat(before + [h.header], h.lines);
      DiffLinesConcat(before, [h.header]);
      ThinnedHunks(a, init);
      assert CompressHunks(hs)[..|hs| - 1] == CompressHunks(init);
      assert before[0] == a[0];
      assert InDiff(before + [h.header], |before|) by { RunsAll(before + [h.header], |before|); }
      ThinnedBody(before, h.header, h.lines, |h.lines|);
      OneMore(Thinned(a, |a|), HunkLines(CompressHunks(init)), [h.header]);
      OneMore(Thinned(a, |a|), HunkLines(CompressHunks(init)) + [h.header], Elided(h.lines, |h.lines|));
    }
  }

  lemma RunsAll(lines: seq<string>, i: nat)
    requires i < |lines| && HasPrefix(lines[0], FILE_MARK) && DiffLines(lines)
    ensures InDiff(lines, i)
  {
    hide HasPrefix, DiffLine;
    assert Runs(lines, 0, i);
  }

  lemma {:induction false} ThinnedFiles(fs: seq<File>)
    requires WellFormed(fs) && DiffLines(FileLines(fs))
    ensures Thinned(FileLines(fs), |FileLines(fs)|) == FileLines(CompressFiles(fs))
    ensures |fs| > 0 ==> |FileLines(fs)| > 0 && HasPrefix(FileLines(fs)[0], FILE_MARK)
  {
    hide DiffLine, Elide, Idle, CompressHunks;
    if |fs| > 0 {
      var init, f := fs[..|fs| - 1], fs[|fs| - 1];
      var before := FileLines(init) + f.headers;
      assert FileLines(fs) == before + HunkLines(f.hunks);
      assert WellFormedFile(f);
      DiffLinesConcat(before, HunkLines(f.hunks));
      DiffLinesConcat(FileLines(init), f.headers);
      ThinnedFiles(init);
      ThinnedHeaders(FileLines(init), f.headers);
      FirstOfMore(FileLines(init), f.headers);
      ThinnedHunks(before, f.hunks);
      assert CompressFiles(fs)[..|fs| - 1] == CompressFiles(init);
    }
  }

  lemma FirstOfMore(a: seq<string>, headers: seq<string>)
    requires |headers| > 0 && HasPrefix(headers[0], FILE_MARK) && (|a| > 0 ==> HasPrefix(a[0], FILE_MARK))
    ensures HasPrefix((a + headers)[0], FILE_MARK)
  {
  }

  /** A compressed block is the block without its idle lines, with a marker for each run. */
  lemma BlockIsThinned(block: seq<string>)
    requires IsBlock(block)
    ensures CompressBlock(block) == Thinned(block, |block|)
    ensures |Parse(block)| > 0
  {
    hide DiffLine, Elide, Thinned, Parse, FileLines;
    ParsedBlock(block);
    ParsedIsWellFormed(block);
    FileMarkIsDiffLine(block[0]);
    ThinnedFiles(Parse(block));
    assert FileLines([]) == [] by { EmptyFiles(); }
  }

  // ----- a whole text ------------------------------------------------------

  /** A block opens at `s`: a file header outside any diff. */
  predicate Opens(lines: seq<string>, s: int)
  {
    0 <= s < |lines| && HasPrefix(lines[s], FILE_MARK) && !InDiff(lines, s - 1)
  }

  /** The lines of the block that opens at `s`. */
  function BlockAt(lines: seq<string>, s: nat): seq<string>
    requires s < |lines|
  {
    lines[s..RunEnd(lines, s + 1)]
  }

  ghost predicate Shrinks(block: seq<string>)
  {
    |JoinLines(Thinned(block, |block|))| < |JoinLines(block)|
  }

  /** The line is in a block that gets shorter. */
  ghost predicate InShrunk(lines: seq<string>, i: int)
  {
    exists s :: ShrunkFrom(lines, s, i)
  }

  ghost predicate ShrunkFrom(lines: seq<string>, s: int, i: int)
  {
    0 <= s <= i && Opens(lines, s) && i < RunEnd(lines, s + 1) && Shrinks(BlockAt(lines, s))
  }

  /** The announcement in front of line `i`, if there is one. */
  ghost function Notice(lines: seq<string>, offload: Offload, i: nat): seq<string>
    requires i < |lines|
  {
    if Opens(lines, i) && Shrinks(BlockAt(lines, i)) && offload(BlockAt(lines, i)).Some? then
      [offload(BlockAt(lines, i)).value]
    else []
  }

  /** What line `i` becomes: an announcement if it opens a block that shrinks and is
      offloaded, then the line, or nothing or a marker if it is idle in such a block. */
  ghost function Piece(lines: seq<string>, offload: Offload, i: nat): seq<string>
    requires i < |lines|
  {
    Notice(lines, offload, i) + if InShrunk(lines, i) then Thin(lines, i) else [lines[i]]
  }

  ghost function Pieces(lines: seq<string>, offload: Offload, n: nat): seq<string>
    requires n <= |lines|
  {
    if n == 0 then [] else Pieces(lines, offload, n - 1) + Piece(lines, offload, n - 1)
  }

  /** No diff runs from the first part into the second. */
  ghost predicate Cut(a: seq<string>, b: seq<string>)
  {
    forall s :: 0 <= s < |a| ==> !Runs(a + b, s, |a|)
  }

  lemma RunsOn(lines: seq<string>, s: int, i: int, k: int)
    requires Runs(lines, s, k) && s <= i <= k
    ensures Runs(lines, s, i)
  {
    hide HasPrefix, DiffLine;
  }

  lemma RunsBehind(a: seq<string>, b: seq<string>, s: int, i: int)
    requires Cut(a, b) && i >= 0
    ensures 0 <= s < |a| ==> !Runs(a + b, s, |a| + i)
    ensures s >= |a| ==> (Runs(a + b, s, |a| + i) <==> Runs(b, s - |a|, i))
  {
    if 0 <= s < |a| && Runs(a + b, s, |a| + i) {
      RunsOn(a + b, s, |a|, |a| + i);
    }
    hide HasPrefix, DiffLine, Cut;
    if s >= |a| {
      assert forall j :: |a| <= j < |a + b| ==> (a + b)[j] == b[j - |a|];
      assert forall j :: 0 <= j < |b| ==> b[j] == (a + b)[j + |a|];
    }
  }

  lemma InDiffBehind(a: seq<string>, b: seq<string>, i: int)
    requires Cut(a, b) && i >= 0
    ensures InDiff(a + b, |a| + i) <==> InDiff(b, i)
  {
    hide Runs, Cut;
    if InDiff(a + b, |a| + i) {
      var s :| 0 <= s <= |a| + i && Runs(a + b, s, |a| + i);
      RunsBehind(a, b, s, i);
      assert Runs(b, s - |a|, i);
    }
    if InDiff(b, i) {
      var s :| 0 <= s <= i && Runs(b, s, i);
      RunsBehind(a, b, s + |a|, i);
      assert Runs(a + b, s + |a|, |a| + i);
    }
  }

  lemma InHunkBehind(a: seq<string>, b: seq<string>, h: int, i: int)
    requires Cut(a, b) && i >= 0
    ensures h < |a| ==> !InHunk(a + b, h, |a| + i)
    ensures h >= |a| ==> (InHunk(a + b, h, |a| + i) <==> InHunk(b, h - |a|, i))
  {
    hide HasPrefix, DiffLine, PlainLine, Cut;
    var lines := a + b;
    if h < |a| && InHunk(lines, h, |a| + i) {
      var s :| 0 <= s <= h && Runs(lines, s, h);
      assert Runs(lines, s, |a| + i);
      RunsBehind(a, b, s, i);
    }
    if h >= |a| {
      InDiffBehind(a, b, h - |a|);
      assert forall j :: |a| <= j < |lines| ==> lines[j] == b[j - |a|];
      assert forall j :: 0 <= j < |b| ==> b[j] == lines[j + |a|];
    }
  }

  lemma IdleBehind(a: seq<string>, b: seq<string>, i: int)
    requires Cut(a, b) && i >= 0
    ensures Idle(a + b, |a| + i) <==> Idle(b, i)
  {
    hide IdleIn, Cut;
    if Idle(b, i) {
      var h :| IdleIn(b, h, i);
      IdleInBounds(b, h, i);
      IdleInBehind(a, b, h + |a|, i);
    }
    if Idle(a + b, |a| + i) {
      var h :| IdleIn(a + b, h, |a| + i);
      IdleInBehind(a, b, h, i);
    }
  }

  lemma IdleInBounds(lines: seq<string>, h: int, i: int)
    ensures IdleIn(lines, h, i) ==> 0 <= h < i < |lines|
  {
    HunkBounds(lines, h, i);
    hide InHunk;
  }

  lemma IdleInBehind(a: seq<string>, b: seq<string>, h: int, i: int)
    requires Cut(a, b) && i >= 0
    ensures h < |a| ==> !IdleIn(a + b, h, |a| + i)
    ensures h >= |a| ==> (IdleIn(a + b, h, |a| + i) <==> IdleIn(b, h - |a|, i))
  {
    hide InHunk, IsChange, Cut;
    InHunkBehind(a, b, h, i);
    if h >= |a| {
      var g := h - |a|;
      forall m
        ensures InHunk(a + b, h, m) ==> h < m < |a + b| && InHunk(b, g, m - |a|)
      {
        HunkBounds(a + b, h, m);
        if m >= |a| {
          InHunkBehind(a, b, h, m - |a|);
        }
      }
      forall m
        ensures InHunk(b, g, m) ==> InHunk(a + b, h, m + |a|) && 0 <= m < |b|
      {
        HunkBounds(b, g, m);
        if m >= 0 {
          InHunkBehind(a, b, h, m);
        }
      }
      assert forall j :: 0 <= j < |b| ==> b[j] == (a + b)[j + |a|];
    }
  }

  lemma FirstIsNotIdle(b: seq<string>)
    ensures !Idle(b, 0)
  {
    forall h
      ensures !IdleIn(b, h, 0)
    {
      IdleInBounds(b, h, 0);
    }
    hide IdleIn;
  }

  lemma ThinBehind(a: seq<string>, b: seq<string>, i: nat)
    requires Cut(a, b) && i < |b|
    ensures Thin(a + b, |a| + i) == Thin(b, i)
  {
    hide Idle, Cut;
    IdleBehind(a, b, i);
    if i > 0 {
      IdleBehind(a, b, i - 1);
    } else {
      FirstIsNotIdle(b);
    }
  }

  lemma OpensBehind(a: seq<string>, b: seq<string>, s: int)
    requires Cut(a, b) && s >= 0
    ensures Opens(a + b, |a| + s) <==> Opens(b, s)
  {
    hide HasPrefix, DiffLine, Runs;
    if 0 < s {
      InDiffBehind(a, b, s - 1);
    } else if s < |b| && HasPrefix(b[0], FILE_MARK) && InDiff(a + b, |a| - 1) {
      var r :| 0 <= r <= |a| - 1 && Runs(a + b, r, |a| - 1);
      FileMarkIsDiffLine(b[0]);
      OneFurther(a + b, r, |a| - 1);
    }
  }

  lemma OneFurther(lines: seq<string>, s: int, i: int)
    requires Runs(lines, s, i) && i + 1 < |lines| && DiffLine(lines[i + 1])
    ensures Runs(lines, s, i + 1)
  {
    hide HasPrefix, DiffLine;
  }

  lemma {:induction false} RunEndBehind(a: seq<string>, b: seq<string>, i: nat)
    requires i <= |b|
    ensures RunEnd(a + b, |a| + i) == |a| + RunEnd(b, i)
    decreases |b| - i
  {
    hide DiffLine;
    if i < |b| {
      assert (a + b)[|a| + i] == b[i];
      RunEndBehind(a, b, i + 1);
    }
  }

  lemma BlockBehind(a: seq<string>, b: seq<string>, s: nat)
    requires s < |b|
    ensures BlockAt(a + b, |a| + s) == BlockAt(b, s)
  {
    RunEndBehind(a, b, s + 1);
    hide RunEnd;
    assert (a + b)[|a| + s..|a| + RunEnd(b, s + 1)] == b[s..RunEnd(b, s + 1)];
  }

  lemma ShrunkBehind(a: seq<string>, b: seq<string>, i: nat)
    requires Cut(a, b) && i < |b|
    ensures InShrunk(a + b, |a| + i) <==> InShrunk(b, i)
  {
    hide ShrunkFrom, Cut;
    if InShrunk(b, i) {
      var s :| ShrunkFrom(b, s, i);
      ShrunkBounds(b, s, i);
      ShrunkFromBehind(a, b, s + |a|, i);
    }
    if InShrunk(a + b, |a| + i) {
      var s :| ShrunkFrom(a + b, s, |a| + i);
      ShrunkBounds(a + b, s, |a| + i);
      ShrunkFromBehind(a, b, s, i);
    }
  }

  lemma ShrunkFromBehind(a: seq<string>, b: seq<string>, s: int, i: nat)
    requires Cut(a, b) && i < |b| && 0 <= s <= |a| + i
    ensures s < |a| ==> !ShrunkFrom(a + b, s, |a| + i)
    ensures s >= |a| ==> (ShrunkFrom(a + b, s, |a| + i) <==> ShrunkFrom(b, s - |a|, i))
  {
    hide Opens, Shrinks, BlockAt, Cut, Runs;
    if s >= |a| {
      OpensBehind(a, b, s - |a|);
      BlockBehind(a, b, s - |a|);
      RunEndBehind(a, b, s - |a| + 1);
    } else if ShrunkFrom(a + b, s, |a| + i) {
      BlockRuns(a + b, s, |a| + i);
      RunsBehind(a, b, s, i);
    }
  }

  lemma ShrunkBounds(lines: seq<string>, s: int, i: int)
    ensures ShrunkFrom(lines, s, i) ==> 0 <= s <= i
  {
  }

  lemma BlockRuns(lines: seq<string>, s: nat, i: nat)
    requires Opens(lines, s) && s <= i < RunEnd(lines, s + 1)
    ensures Runs(lines, s, i)
  {
  }

  lemma PieceBehind(a: seq<string>, b: seq<string>, offload: Offload, i: nat)
    requires Cut(a, b) && i < |b|
    ensures Piece(a + b, offload, |a| + i) == Piece(b, offload, i)
  {
    ShrunkBehind(a, b, i);
    ThinBehind(a, b, i);
    OpensBehind(a, b, i);
    BlockBehind(a, b, i);
    hide Opens, Shrinks, BlockAt, Cut, Thin, InShrunk;
  }

  lemma {:induction false} PiecesBehind(a: seq<string>, b: seq<string>, offload: Offload, n: nat)
    requires Cut(a, b) && n <= |b|
    ensures Pieces(a + b, offload, |a| + n) == Pieces(a + b, offload, |a|) + Pieces(b, offload, n)
  {
    hide Piece, Cut;
    if n > 0 {
      PiecesBehind(a, b, offload, n - 1);
      PieceBehind(a, b, offload, n - 1);
      OneMore(Pieces(a + b, offload, |a|), Pieces(b, offload, n - 1), Piece(b, offload, n - 1));
    }
  }

  /** A line outside any diff. */
  lemma PlainPiece(l: string, rest: seq<string>, offload: Offload)
    requires !HasPrefix(l, FILE_MARK)
    ensures Cut([l], rest) && Pieces([l] + rest, offload, 1) == [l]
  {
    hide HasPrefix, DiffLine, Shrinks, Thin, RunEnd;
    var lines := [l] + rest;
    forall s
      ensures !ShrunkFrom(lines, s, 0)
    {
    }
    hide ShrunkFrom;
    assert Pieces(lines, offload, 1) == Pieces(lines, offload, 0) + Piece(lines, offload, 0);
    assert Notice(lines, offload, 0) == [];
    assert Piece(lines, offload, 0) == [l];
  }

  lemma BlockCut(block: seq<string>, rest: seq<string>)
    requires IsBlock(block) && Blocks(rest)
    ensures Cut(block, rest) && Parted(rest)
    ensures RunEnd(block + rest, 1) == |block| && BlockAt(block + rest, 0) == block
    ensures forall i :: 0 <= i < |block| + |rest| ==> (Opens(block + rest, i) && i < |block| <==> i == 0)
  {
    hide HasPrefix, DiffLine;
    var lines := block + rest;
    RunEndOfConcat(block, rest, 1);
    assert lines[..|block|] == block;
    if |rest| > 0 {
      assert lines[|block|] == rest[0];
    }
    forall i | 0 <= i < |block|
      ensures Opens(lines, i) <==> i == 0
    {
      if i > 0 {
        assert Runs(lines, 0, i - 1);
      }
    }
  }

  lemma BlockShrunk(block: seq<string>, rest: seq<string>, i: nat)
    requires IsBlock(block) && Blocks(rest) && i < |block|
    ensures InShrunk(block + rest, i) <==> Shrinks(block)
  {
    BlockCut(block, rest);
    hide Opens, Shrinks, BlockAt, RunEnd, IsBlock, Blocks;
    var lines := block + rest;
    forall s
      ensures ShrunkFrom(lines, s, i) <==> s == 0 && Shrinks(block)
    {
    }
    hide ShrunkFrom;
    if Shrinks(block) {
      assert ShrunkFrom(lines, 0, i);
    }
  }

  lemma BlockPiece(block: seq<string>, rest: seq<string>, offload: Offload, i: nat)
    requires IsBlock(block) && Blocks(rest) && i < |block|
    ensures Piece(block + rest, offload, i) ==
            if Shrinks(block) then (if i == 0 then Notice(block + rest, offload, 0) else []) + Thin(block, i)
            else [block[i]]
  {
    BlockCut(block, rest);
    BlockShrunk(block, rest, i);
    IdleBefore(block, rest, i);
    IdleBefore(block, rest, i - 1);
    hide Opens, Shrinks, BlockAt, RunEnd, IsBlock, Blocks, Idle, InShrunk;
    assert (block + rest)[i] == block[i];
  }

  lemma {:induction false} BlockPieces(block: seq<string>, rest: seq<string>, offload: Offload, n: nat)
    requires IsBlock(block) && Blocks(rest) && 0 < n <= |block|
    ensures Pieces(block + rest, offload, n) ==
            if Shrinks(block) then Notice(block + rest, offload, 0) + Thinned(block, n) else block[..n]
  {
    hide *;
    BlockPiece(block, rest, offload, n - 1);
    LastSteps(block, block + rest, offload, n);
    var notice := Notice(block + rest, offload, 0);
    if n == 1 {
      LastSteps(block, block + rest, offload, 0);
      assert notice + Thin(block, 0) == notice + ([] + Thin(block, 0));
      assert block[..1] == [block[0]];
    } else {
      BlockPieces(block, rest, offload, n - 1);
      OneMore(notice, Thinned(block, n - 1), Thin(block, n - 1));
      assert [] + Thin(block, n - 1) == Thin(block, n - 1);
      assert block[..n] == block[..n - 1] + [block[n - 1]];
    }
  }

  lemma LastSteps(block: seq<string>, lines: seq<string>, offload: Offload, n: nat)
    requires n <= |block| && n <= |lines|
    ensures n == 0 ==> Pieces(lines, offload, n) == [] && Thinned(block, n) == []
    ensures n > 0 ==>
              && Pieces(lines, offload, n) == Pieces(lines, offload, n - 1) + Piece(lines, offload, n - 1)
              && Thinned(block, n) == Thinned(block, n - 1) + Thin(block, n - 1)
  {
    hide Piece, Thin;
  }

  /** The output for every text is what its positions say, line by line. */
  lemma {:induction false} OutputByPosition(lines: seq<string>, offload: Offload)
    ensures CompressLines(lines, offload) == Pieces(lines, offload, |lines|)
    decreases |lines|
  {
    hide Piece, IsBlock, Blocks, CompressSingle;
    if |lines| > 0 {
      if HasPrefix(lines[0], FILE_MARK) {
        var n := RunEnd(lines, 1);
        var block, rest := lines[..n], lines[n..];
        assert lines == block + rest;
        assert IsBlock(block) && Blocks(rest) by { FirstBlock(lines); }
        BlockIsFound(block, rest, offload);
        OutputByPosition(rest, offload);
        BlockOutput(block, rest, offload);
        assert Cut(block, rest) by { BlockCut(block, rest); }
        PiecesBehind(block, rest, offload, |rest|);
      } else {
        var l, rest := lines[0], lines[1..];
        assert lines == [l] + rest;
        PlainLineIsKept(l, rest, offload);
        OutputByPosition(rest, offload);
        PlainPiece(l, rest, offload);
        PiecesBehind([l], rest, offload, |rest|);
      }
    }
  }

  lemma FirstBlock(lines: seq<string>)
    requires |lines| > 0 && HasPrefix(lines[0], FILE_MARK)
    ensures IsBlock(lines[..RunEnd(lines, 1)]) && Blocks(lines[RunEnd(lines, 1)..])
  {
  }

  lemma BlockOutput(block: seq<string>, rest: seq<string>, offload: Offload)
    requires IsBlock(block) && Blocks(rest)
    ensures Pieces(block + rest, offload, |block|) ==
            match CompressSingle(block, offload) case None => block case Some(c) => c
  {
    BlockIsThinned(block);
    BlockPieces(block, rest, offload, |block|);
    BlockCut(block, rest);
    hide Opens, BlockAt, RunEnd, Blocks, Thinned, CompressBlock, Parse, Pieces;
    assert block[..|block|] == block;
  }

  // ----- what that means for the lines -------------------------------------

  /** Where line `i` stands in the output if it is there. */
  ghost function Place(lines: seq<string>, offload: Offload, i: nat): nat
    requires i < |lines|
  {
    |Pieces(lines, offload, i) + Notice(lines, offload, i)|
  }

  lemma {:induction false} PiecesGrow(lines: seq<string>, offload: Offload, i: nat, n: nat)
    requires i <= n <= |lines|
    ensures Pieces(lines, offload, i) <= Pieces(lines, offload, n)
    decreases n
  {
    hide Piece;
    if i < n {
      PiecesGrow(lines, offload, i, n - 1);
    }
  }

  /** Every line that is not idle is in the output, and the lines keep their order. */
  lemma LinesSurvive(lines: seq<string>, offload: Offload, i: nat)
    requires i < |lines| && !Idle(lines, i)
    ensures var out := CompressLines(lines, offload);
            && Place(lines, offload, i) < |out| && out[Place(lines, offload, i)] == lines[i]
            && forall k :: i < k < |lines| ==> Place(lines, offload, i) < Place(lines, offload, k)
  {
    hide Idle, Notice;
    OutputByPosition(lines, offload);
    PiecesGrow(lines, offload, i + 1, |lines|);
    assert Piece(lines, offload, i) == Notice(lines, offload, i) + [lines[i]];
    assert Pieces(lines, offload, i + 1) == Pieces(lines, offload, i) + Piece(lines, offload, i);
    forall k | i < k < |lines|
      ensures Place(lines, offload, i) < Place(lines, offload, k)
    {
      PiecesGrow(lines, offload, i + 1, k);
    }
  }

  /** Headers and changes are never idle, nor is anything outside a diff. */
  lemma NeverIdle(lines: seq<string>, i: nat)
    requires i < |lines|
    requires HasPrefix(lines[i], FILE_MARK) || HasPrefix(lines[i], HUNK_MARK) || IsChange(lines[i]) || !InDiff(lines, i)
    ensures !Idle(lines, i)
  {
    hide HasPrefix, DiffLine, IsChange, Runs;
    forall h
      ensures !IdleIn(lines, h, i)
    {
      if InHunk(lines, h, i) && !InDiff(lines, i) {
        HunkIsInDiff(lines, h, i);
      }
    }
  }

  lemma HunkIsInDiff(lines: seq<string>, h: int, i: int)
    requires InHunk(lines, h, i)
    ensures InDiff(lines, i)
  {
    hide HasPrefix, DiffLine, PlainLine;
    var s :| 0 <= s <= h && Runs(lines, s, h);
    assert Runs(lines, s, i);
  }

  /** Output line `j` is line `i` of the input, or the announcement of the block that
      opens there, or the marker of the run of idle lines that begins there. */
  ghost predicate ComesFrom(lines: seq<string>, offload: Offload, i: nat, j: nat, line: string)
    requires i < |lines|
  {
    if j < Place(lines, offload, i) then
      Opens(lines, i) && Shrinks(BlockAt(lines, i)) && offload(BlockAt(lines, i)) == Some(line)
    else
      && j == Place(lines, offload, i)
      && (line == lines[i] || (line == "..." && Idle(lines, i) && !Idle(lines, i - 1) && InShrunk(lines, i)))
  }

  /** Every output line comes from one place in the input, in order. */
  lemma {:induction false} NothingElseAppears(lines: seq<string>, offload: Offload, n: nat, j: nat) returns (i: nat)
    requires n <= |lines| && j < |Pieces(lines, offload, n)|
    ensures i < n && |Pieces(lines, offload, i)| <= j < |Pieces(lines, offload, i + 1)|
    ensures ComesFrom(lines, offload, i, j, Pieces(lines, offload, n)[j])
  {
    hide Pieces, ComesFrom, Piece;
    PiecesStep(lines, offload, n);
    if j < |Pieces(lines, offload, n - 1)| {
      i := NothingElseAppears(lines, offload, n - 1, j);
    } else {
      i := n - 1;
      LineOfPiece(lines, offload, i, j - |Pieces(lines, offload, i)|);
    }
  }

  lemma PiecesStep(lines: seq<string>, offload: Offload, n: nat)
    requires n <= |lines|
    ensures if n == 0 then Pieces(lines, offload, n) == []
            else Pieces(lines, offload, n) == Pieces(lines, offload, n - 1) + Piece(lines, offload, n - 1)
  {
    hide Piece;
  }

  lemma LineOfPiece(lines: seq<string>, offload: Offload, i: nat, k: nat)
    requires i < |lines| && k < |Piece(lines, offload, i)|
    ensures ComesFrom(lines, offload, i, |Pieces(lines, offload, i)| + k, Piece(lines, offload, i)[k])
  {
    hide Idle, Opens, Shrinks, BlockAt, InShrunk, Pieces;
  }

  /** The theorem for texts. */
  lemma TextByPosition(text: string, offload: Offload)
    ensures CompressText(text, offload) == JoinLines(Pieces(Lines(text), offload, |Lines(text)|))
  {
    OutputByPosition(Lines(text), offload);
  }
}
