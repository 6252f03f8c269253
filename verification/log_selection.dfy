// Which log lines survive: the in-place sorts, the top-k choice, and the structured
// log selection around high-scoring lines.
module LogSelection {
  import opened Text

  /** A line with its score and its position in the source. */
  datatype Scored = Scored(text: string, score: real, idx: nat)

  type Scorer = string -> real

  // ----- sorting in place --------------------------------------------------

  /** Score descending, position ascending on ties. */
  predicate Ranks(x: Scored, y: Scored)
  {
    x.score > y.score || (x.score == y.score && x.idx < y.idx)
  }

  predicate Earlier(x: Scored, y: Scored)
  {
    x.idx < y.idx
  }

  ghost predicate Sorted(s: seq<Scored>, before: (Scored, Scored) -> bool)
  {
    forall p, q :: 0 <= p < q < |s| ==> !before(s[q], s[p])
  }

  /** What both orders of the source have: an element that is not before a second
      one, which is not before a third, is not before the third. */
  ghost predicate NegativelyTransitive(before: (Scored, Scored) -> bool)
  {
    && (forall x, y, z :: !before(x, y) && !before(y, z) ==> !before(x, z))
    && (forall x, y :: before(x, y) ==> !before(y, x))
  }

  lemma OrdersAreSound()
    ensures NegativelyTransitive(Ranks) && NegativelyTransitive(Earlier)
  {
  }

  /** The insertion sort of the source, for either order. */
  method InsertionSort(s: array<Scored>, before: (Scored, Scored) -> bool)
    requires NegativelyTransitive(before)
    modifies s
    ensures Sorted(s[..], before) && multiset(s[..]) == old(multiset(s[..]))
  {
    if s.Length == 0 {
      return;
    }
    for i := 1 to s.Length
      invariant Sorted(s[..i], before)
      invariant multiset(s[..]) == old(multiset(s[..]))
    {
      SinkInto(s, i, before);
    }
    assert s[..s.Length] == s[..];
  }

  /** All in order among the first n but for the element at j, and nothing after j
      comes before it. */
  ghost predicate SortedBut(s: seq<Scored>, n: nat, j: nat, before: (Scored, Scored) -> bool)
    requires n <= |s|
  {
    forall p, q :: 0 <= p < q < n && q != j ==> !before(s[q], s[p])
  }

  lemma SwapKeeps(s: seq<Scored>, t: seq<Scored>, n: nat, j: nat, before: (Scored, Scored) -> bool)
    requires NegativelyTransitive(before) && 0 < j < n <= |s| && SortedBut(s, n, j, before) && before(s[j], s[j - 1])
    requires t == s[j := s[j - 1]][j - 1 := s[j]]
    ensures SortedBut(t, n, j - 1, before)
  {
    forall p, q | 0 <= p < q < n && q != j - 1
      ensures !before(t[q], t[p])
    {
      if q == j {
        assert p == j - 1 || !before(s[j - 1], s[p]);
      } else if p == j || p == j - 1 {
        assert !before(s[q], s[j]) && !before(s[q], s[j - 1]);
      } else {
        assert !before(s[q], s[p]);
      }
    }
  }

  lemma SunkIsSorted(s: seq<Scored>, n: nat, j: nat, before: (Scored, Scored) -> bool)
    requires NegativelyTransitive(before) && j < n <= |s| && SortedBut(s, n, j, before)
    requires j > 0 ==> !before(s[j], s[j - 1])
    ensures Sorted(s[..n], before)
  {
    forall p | 0 <= p < j
      ensures !before(s[j], s[p])
    {
      if p < j - 1 {
        assert !before(s[j - 1], s[p]);
      }
    }
  }

  method SinkInto(s: array<Scored>, i: nat, before: (Scored, Scored) -> bool)
    requires NegativelyTransitive(before) && 0 < i < s.Length && Sorted(s[..i], before)
    modifies s
    ensures Sorted(s[..i + 1], before) && multiset(s[..]) == old(multiset(s[..]))
  {
    var j := i;
    StartsSorted(s[..], i, before);
    hide NegativelyTransitive, SortedBut, Sorted;
    while j > 0 && before(s[j], s[j - 1])
      invariant 0 <= j <= i
      invariant SortedBut(s[..], i + 1, j, before)
      invariant multiset(s[..]) == old(multiset(s[..]))
    {
      ghost var was := s[..];
      s[j], s[j - 1] := s[j - 1], s[j];
      SwapKeeps(was, s[..], i + 1, j, before);
      j := j - 1;
    }
    SunkIsSorted(s[..], i + 1, j, before);
    assert s[..][..i + 1] == s[..i + 1];
  }

  lemma StartsSorted(s: seq<Scored>, i: nat, before: (Scored, Scored) -> bool)
    requires i < |s| && Sorted(s[..i], before)
    ensures SortedBut(s, i + 1, i, before)
  {
    forall p, q | 0 <= p < q < i + 1 && q != i
      ensures !before(s[q], s[p])
    {
      assert s[..i][p] == s[p] && s[..i][q] == s[q];
    }
  }

  // ----- positions and lines -----------------------------------------------

  function Annotate(lines: seq<string>, score: Scorer): seq<Scored>
  {
    seq(|lines|, i requires 0 <= i < |lines| => Scored(lines[i], score(lines[i]), i))
  }

  /** Line `p` is preferred to line `d`. */
  predicate Outranks(lines: seq<string>, score: Scorer, p: nat, d: nat)
    requires p < |lines| && d < |lines|
  {
    score(lines[p]) > score(lines[d]) || (score(lines[p]) == score(lines[d]) && p < d)
  }

  /** The lines at the positions in `kept`, in reading order. */
  function LinesAt(lines: seq<string>, kept: set<nat>, n: nat): seq<string>
    requires n <= |lines|
  {
    if n == 0 then [] else LinesAt(lines, kept, n - 1) + (if n - 1 in kept then [lines[n - 1]] else [])
  }

  function Positions(s: seq<Scored>): set<nat>
  {
    set x | x in s :: x.idx
  }

  ghost predicate Within(s: seq<Scored>, all: seq<Scored>)
  {
    && (forall x :: x in s ==> x in all)
    && (forall p, q :: 0 <= p < q < |s| ==> s[p].idx != s[q].idx)
  }

  /** A permutation of lines at distinct positions still has distinct positions. */
  lemma PermutationKeepsPositions(s: seq<Scored>, t: seq<Scored>)
    requires multiset(s) == multiset(t)
    requires forall p, q :: 0 <= p < q < |t| ==> t[p].idx != t[q].idx
    ensures forall p, q :: 0 <= p < q < |s| ==> s[p].idx != s[q].idx
    ensures |s| == |t| && forall x :: x in s <==> x in t
  {
    assert |multiset(s)| == |multiset(t)|;
    forall x
      ensures x in s <==> x in t
    {
      assert x in multiset(s) <==> x in multiset(t);
    }
    forall p, q | 0 <= p < q < |s|
      ensures s[p].idx != s[q].idx
    {
      if s[p].idx == s[q].idx {
        assert s[p] in t && s[q] in t;
        var i :| 0 <= i < |t| && t[i] == s[p];
        var j :| 0 <= j < |t| && t[j] == s[q];
        assert i == j;
        TwiceInMultiset(s, p, q);
        OnceInMultiset(t, i);
        assert false;
      }
    }
  }

  lemma TwiceInMultiset(s: seq<Scored>, p: nat, q: nat)
    requires p < q < |s| && s[p] == s[q]
    ensures multiset(s)[s[p]] >= 2
  {
    assert s == s[..p + 1] + s[p + 1..];
    assert s[p] in s[..p + 1] && s[p + 1..][q - p - 1] == s[p];
    assert multiset(s) == multiset(s[..p + 1]) + multiset(s[p + 1..]);
  }

  lemma OnceInMultiset(t: seq<Scored>, i: nat)
    requires i < |t| && forall p, q :: 0 <= p < q < |t| ==> t[p].idx != t[q].idx
    ensures multiset(t)[t[i]] == 1
  {
    assert t == t[..i] + [t[i]] + t[i + 1..];
    assert multiset(t) == multiset(t[..i]) + multiset{t[i]} + multiset(t[i + 1..]);
    forall p | 0 <= p < |t| && p != i
      ensures t[p] != t[i]
    {
      assert if p < i then t[p].idx != t[i].idx else t[i].idx != t[p].idx;
    }
  }

  lemma {:induction false} PositionsCount(s: seq<Scored>)
    requires forall p, q :: 0 <= p < q < |s| ==> s[p].idx != s[q].idx
    ensures |Positions(s)| == |s|
  {
    hide Positions;
    if |s| == 0 {
      NoPositions();
      assert s == [];
    } else {
      var init, last := s[..|s| - 1], s[|s| - 1];
      PositionsCount(init);
      PositionsPush(init, last);
      assert s == init + [last];
      LastIsNew(s);
      NotAPosition(init, last.idx);
    }
  }

  lemma LastIsNew(s: seq<Scored>)
    requires |s| > 0 && forall p, q :: 0 <= p < q < |s| ==> s[p].idx != s[q].idx
    ensures forall x :: x in s[..|s| - 1] ==> x.idx != s[|s| - 1].idx
  {
  }

  lemma PositionsPush(s: seq<Scored>, x: Scored)
    ensures Positions(s + [x]) == Positions(s) + {x.idx}
  {
  }

  /** The front of a list sorted by rank outranks everything behind it. */
  lemma FrontOutranks(lines: seq<string>, score: Scorer, sorted: seq<Scored>, k: nat, p: nat, d: nat)
    requires Sorted(sorted, Ranks) && Within(sorted, Annotate(lines, score)) && k <= |sorted|
    requires p in Positions(sorted[..k]) && d in Positions(sorted[k..])
    ensures p < |lines| && d < |lines| && Outranks(lines, score, p, d)
  {
    var x :| x in sorted[..k] && x.idx == p;
    var y :| y in sorted[k..] && y.idx == d;
    var i :| 0 <= i < k && sorted[i] == x;
    var j :| 0 <= j < |sorted[k..]| && sorted[k..][j] == y;
    assert sorted[k + j] == y;
    assert x in Annotate(lines, score) && y in Annotate(lines, score);
    assert !Ranks(y, x) && x.idx != y.idx;
  }

  // ----- the k best lines, in reading order --------------------------------

  ghost predicate IsTopK(lines: seq<string>, k: nat, score: Scorer, kept: set<nat>)
  {
    && (forall p :: p in kept ==> p < |lines|)
    && |kept| == k
    && (forall p, d: nat :: p in kept && d < |lines| && d !in kept ==> p < |lines| && Outranks(lines, score, p, d))
  }

  /** No k lines are better than the ones returned, and those come in source order. */
  method TopKScoredLines(lines: seq<string>, k: int, score: Scorer) returns (out: seq<string>, ghost kept: set<nat>)
    ensures IsTopK(lines, if k <= 0 then 0 else if k >= |lines| then |lines| else k, score, kept)
    ensures out == LinesAt(lines, kept, |lines|)
  {
    if k <= 0 || |lines| == 0 {
      NothingAt(lines, |lines|);
      return [], {};
    }
    if k >= |lines| {
      kept := Range(|lines|);
      EverythingAt(lines, kept, |lines|);
      return lines, kept;
    }
    var all := new Scored[|lines|](i requires 0 <= i < |lines| => Scored(lines[i], score(lines[i]), i));
    assert all[..] == Annotate(lines, score);
    OrdersAreSound();
    InsertionSort(all, Ranks);
    ghost var sorted := all[..];
    PermutationKeepsPositions(sorted, Annotate(lines, score));
    kept := Positions(sorted[..k]);
    FrontIsTopK(lines, score, sorted, k);
    out := SortByIdxAsc(all[..k], lines, score);
  }

  lemma BehindTheFront(sorted: seq<Scored>, k: nat, y: Scored)
    requires k <= |sorted| && y in sorted && y.idx !in Positions(sorted[..k])
    ensures y.idx in Positions(sorted[k..])
  {
    assert sorted == sorted[..k] + sorted[k..];
    assert y !in sorted[..k];
    assert y in sorted[k..];
  }

  lemma FrontIsTopK(lines: seq<string>, score: Scorer, sorted: seq<Scored>, k: nat)
    requires Sorted(sorted, Ranks) && Within(sorted, Annotate(lines, score)) && k <= |sorted|
    requires forall x :: x in Annotate(lines, score) ==> x in sorted
    ensures IsTopK(lines, k, score, Positions(sorted[..k]))
  {
    PositionsCount(sorted[..k]);
    assert forall x :: x in sorted[..k] ==> x in sorted;
    forall p, d: nat | p in Positions(sorted[..k]) && d < |lines| && d !in Positions(sorted[..k])
      ensures p < |lines| && Outranks(lines, score, p, d)
    {
      BehindTheFront(sorted, k, Annotate(lines, score)[d]);
      FrontOutranks(lines, score, sorted, k, p, d);
    }
  }

  /** The lines of the chosen entries, re-sorted by position. */
  method SortByIdxAsc(chosen: seq<Scored>, ghost lines: seq<string>, ghost score: Scorer) returns (out: seq<string>)
    requires Within(chosen, Annotate(lines, score))
    ensures out == LinesAt(lines, Positions(chosen), |lines|)
  {
    var pairs := new Scored[|chosen|](i requires 0 <= i < |chosen| => chosen[i]);
    assert pairs[..] == chosen;
    OrdersAreSound();
    InsertionSort(pairs, Earlier);
    ghost var sorted := pairs[..];
    PermutationKeepsPositions(sorted, chosen);
    assert Positions(sorted) == Positions(chosen);
    out := [];
    for i := 0 to pairs.Length
      invariant out == Texts(sorted[..i])
    {
      assert sorted[..i + 1] == sorted[..i] + [sorted[i]];
      out := out + [pairs[i].text];
    }
    assert sorted[..pairs.Length] == sorted;
    assert Within(sorted, Annotate(lines, score));
    IncreasingIsLinesAt(lines, score, sorted, |lines|);
  }

  function Texts(s: seq<Scored>): seq<string>
  {
    seq(|s|, k requires 0 <= k < |s| => s[k].text)
  }

  /** All but the last of an increasing list lie before the last. */
  lemma IncreasingInit(s: seq<Scored>)
    requires |s| > 0 && Sorted(s, Earlier) && forall p, q :: 0 <= p < q < |s| ==> s[p].idx != s[q].idx
    ensures forall x :: x in s[..|s| - 1] ==> x.idx < s[|s| - 1].idx
    ensures Positions(s) == Positions(s[..|s| - 1]) + {s[|s| - 1].idx}
    ensures Texts(s) == Texts(s[..|s| - 1]) + [s[|s| - 1].text]
  {
    var init, last := s[..|s| - 1], s[|s| - 1];
    assert s == init + [last];
    forall x | x in init
      ensures x.idx < last.idx
    {
      var p :| 0 <= p < |init| && init[p] == x;
      assert x == s[p] && !Earlier(last, s[p]) && s[p].idx != last.idx;
    }
  }

  lemma {:induction false} IncreasingIsLinesAt(lines: seq<string>, score: Scorer, s: seq<Scored>, n: nat)
    requires n <= |lines| && Sorted(s, Earlier) && Within(s, Annotate(lines, score))
    requires forall x :: x in s ==> x.idx < n
    ensures LinesAt(lines, Positions(s), n) == Texts(s)
    decreases n
  {
    hide Positions, Texts;
    if |s| == 0 {
      NoPositions();
      NothingAt(lines, n);
      assert s == [];
    } else {
      var init, last := s[..|s| - 1], s[|s| - 1];
      assert last in s;
      IncreasingInit(s);
      if last.idx == n - 1 {
        assert forall x :: x in init ==> x in s;
        IncreasingIsLinesAt(lines, score, init, n - 1);
        LinesAtIgnores(lines, Positions(init), n - 1, n - 1);
        assert n - 1 in Positions(init) + {n - 1};
      } else {
        assert s == init + [last];
        NotAPosition(s, n - 1);
        IncreasingIsLinesAt(lines, score, s, n - 1);
      }
    }
  }

  lemma NoPositions()
    ensures Positions([]) == {} && Texts([]) == []
  {
  }

  lemma NotAPosition(s: seq<Scored>, n: nat)
    requires forall x :: x in s ==> x.idx != n
    ensures n !in Positions(s)
  {
  }

  lemma {:induction false} LinesAtIgnores(lines: seq<string>, kept: set<nat>, x: nat, n: nat)
    requires n <= |lines| && x >= n
    ensures LinesAt(lines, kept + {x}, n) == LinesAt(lines, kept, n)
  {
    if n > 0 {
      LinesAtIgnores(lines, kept, x, n - 1);
    }
  }

  lemma {:induction false} NothingAt(lines: seq<string>, n: nat)
    requires n <= |lines|
    ensures LinesAt(lines, {}, n) == []
  {
    if n > 0 {
      NothingAt(lines, n - 1);
    }
  }

  lemma {:induction false} EverythingAt(lines: seq<string>, kept: set<nat>, n: nat)
    requires n <= |lines| && forall i: nat :: i < |lines| ==> i in kept
    ensures LinesAt(lines, kept, n) == lines[..n]
    ensures (forall i :: i in kept ==> i < |lines|) ==> |kept| == |lines|
  {
    if n > 0 {
      EverythingAt(lines, kept, n - 1);
      assert lines[..n] == lines[..n - 1] + [lines[n - 1]];
    }
    if forall i :: i in kept ==> i < |lines| {
      assert kept == Range(|lines|);
    }
  }

  function Range(n: nat): (r: set<nat>)
    ensures forall i: nat :: i in r <==> i < n
    ensures |r| == n
  {
    if n == 0 then {} else Range(n - 1) + {n - 1}
  }

  // ----- structured logs ---------------------------------------------------

  const KEEP_FIRST := 5
  const KEEP_LAST := 5
  const KEEP_TOP := 10
  const ERROR_CONTEXT := 3

  predicate IsError(lines: seq<string>, score: Scorer, i: int)
  {
    0 <= i < |lines| && score(lines[i]) >= 0.85
  }

  /** Within three lines of a line that scores at least 0.85. */
  predicate MustKeep(lines: seq<string>, score: Scorer, i: nat)
  {
    i < |lines| && exists e :: i - 3 <= e <= i + 3 && IsError(lines, score, e)
  }

  /** The hard guarantee, then the ten best of the rest. */
  ghost predicate IsSelection(lines: seq<string>, score: Scorer, kept: set<nat>)
  {
    var must := set i: nat | i < |lines| && MustKeep(lines, score, i);
    && must <= kept && (forall i :: i in kept ==> i < |lines|)
    && |kept - must| == (if |lines| - |must| < 10 then |lines| - |must| else 10)
    && (forall p, d: nat :: p in kept - must && d < |lines| && d !in kept ==>
          p < |lines| && Outranks(lines, score, p, d))
  }

  method PromoteErrors(lines: seq<string>, score: Scorer) returns (mustKeep: set<nat>)
    ensures forall i: nat :: i in mustKeep <==> i < |lines| && MustKeep(lines, score, i)
  {
    mustKeep := {};
    for i := 0 to |lines|
      invariant forall j: nat :: j in mustKeep <==>
                  j < |lines| &&
                  exists e :: j - ERROR_CONTEXT <= e <= j + ERROR_CONTEXT && e < i && IsError(lines, score, e)
    {
      if score(lines[i]) >= 0.85 {
        assert IsError(lines, score, i);
        var from := if i < ERROR_CONTEXT then 0 else i - ERROR_CONTEXT;
        var to := if i + ERROR_CONTEXT < |lines| then i + ERROR_CONTEXT else |lines| - 1;
        ghost var before := mustKeep;
        for j := from to to + 1
          invariant forall k: nat :: k in mustKeep <==> k in before || from <= k < j
        {
          mustKeep := mustKeep + {j};
        }
      }
    }
  }

  method Unpromoted(lines: seq<string>, score: Scorer, mustKeep: set<nat>) returns (rest: seq<Scored>)
    ensures Within(rest, Annotate(lines, score))
    ensures Positions(rest) == set i: nat | i < |lines| && i !in mustKeep
  {
    rest := [];
    for i := 0 to |lines|
      invariant Within(rest, Annotate(lines, score))
      invariant forall p :: 0 <= p < |rest| ==> rest[p].idx < i
      invariant Positions(rest) == set j: nat | j < i && j !in mustKeep
    {
      var il := Scored(lines[i], score(lines[i]), i);
      assert Annotate(lines, score)[i] == il;
      if i !in mustKeep {
        assert Positions(rest + [il]) == Positions(rest) + {i};
        rest := rest + [il];
      }
    }
  }

  /** The positions of the middle lines that survive. */
  method Select(lines: seq<string>, score: Scorer) returns (keptIdx: set<nat>)
    ensures IsSelection(lines, score, keptIdx)
  {
    var mustKeep := PromoteErrors(lines, score);
    var rest := Unpromoted(lines, score, mustKeep);
    var ranked := new Scored[|rest|](i requires 0 <= i < |rest| => rest[i]);
    assert ranked[..] == rest;
    OrdersAreSound();
    InsertionSort(ranked, Ranks);
    ghost var sorted := ranked[..];
    PermutationKeepsPositions(sorted, rest);
    keptIdx := mustKeep;
    for i := 0 to if ranked.Length < KEEP_TOP then ranked.Length else KEEP_TOP
      modifies {}
      invariant keptIdx == mustKeep + Positions(sorted[..i])
    {
      assert ranked[i] == sorted[i];
      assert sorted[..i + 1] == sorted[..i] + [sorted[i]];
      PositionsPush(sorted[..i], sorted[i]);
      assert Positions(sorted[..i + 1]) == Positions(sorted[..i]) + {sorted[i].idx};
      keptIdx := keptIdx + {ranked[i].idx};
    }
    SelectionIsSound(lines, score, mustKeep, rest, sorted);
  }

  lemma SelectionIsSound(lines: seq<string>, score: Scorer, must: set<nat>, rest: seq<Scored>, sorted: seq<Scored>)
    requires forall i: nat :: i in must <==> i < |lines| && MustKeep(lines, score, i)
    requires Within(rest, Annotate(lines, score)) && Positions(rest) == set i: nat | i < |lines| && i !in must
    requires Within(sorted, Annotate(lines, score)) && Sorted(sorted, Ranks)
    requires |sorted| == |rest| && forall x :: x in sorted <==> x in rest
    ensures IsSelection(lines, score, must + Positions(sorted[..if |sorted| < KEEP_TOP then |sorted| else KEEP_TOP]))
  {
    hide Ranks, Outranks, MustKeep, Positions, Annotate;
    var k := if |sorted| < KEEP_TOP then |sorted| else KEEP_TOP;
    var picks := Positions(sorted[..k]);
    var kept := must + picks;
    assert must == set i: nat | i < |lines| && MustKeep(lines, score, i);
    FrontIsPicked(sorted, rest, k);
    assert kept - must == picks;
    PositionsCount(sorted[..k]);
    RestCount(lines, must, rest);
    forall p, d: nat | p in picks && d < |lines| && d !in kept
      ensures p < |lines| && Outranks(lines, score, p, d)
    {
      assert d in Positions(rest);
      PickOutranks(lines, score, rest, sorted, k, p, d);
    }
  }

  lemma FrontIsPicked(sorted: seq<Scored>, rest: seq<Scored>, k: nat)
    requires k <= |sorted| && forall x :: x in sorted <==> x in rest
    ensures Positions(sorted[..k]) <= Positions(rest)
  {
    assert forall x :: x in sorted[..k] ==> x in sorted;
  }

  lemma PickOutranks(lines: seq<string>, score: Scorer, rest: seq<Scored>, sorted: seq<Scored>, k: nat, p: nat, d: nat)
    requires Within(sorted, Annotate(lines, score)) && Sorted(sorted, Ranks) && k <= |sorted|
    requires forall x :: x in sorted <==> x in rest
    requires p in Positions(sorted[..k]) && d in Positions(rest) && d !in Positions(sorted[..k])
    ensures p < |lines| && d < |lines| && Outranks(lines, score, p, d)
  {
    hide Ranks, Outranks, Annotate;
    var y :| y in rest && y.idx == d;
    BehindTheFront(sorted, k, y);
    FrontOutranks(lines, score, sorted, k, p, d);
  }

  lemma RestCount(lines: seq<string>, must: set<nat>, rest: seq<Scored>)
    requires forall i :: i in must ==> i < |lines|
    requires Positions(rest) == set i: nat | i < |lines| && i !in must
    requires forall p, q :: 0 <= p < q < |rest| ==> rest[p].idx != rest[q].idx
    ensures |rest| == |lines| - |must|
  {
    PositionsCount(rest);
    assert Range(|lines|) == must + Positions(rest) && must !! Positions(rest);
  }

  // ----- decimal numbers in the markers ------------------------------------

  function Digit(d: nat): char
    requires d < 10
  {
    "0123456789"[d]
  }

  function Decimal(n: nat): string
  {
    if n < 10 then [Digit(n)] else Decimal(n / 10) + [Digit(n % 10)]
  }

  function Number(s: string): nat
  {
    if |s| == 0 then 0
    else 10 * Number(s[..|s| - 1]) + (if '0' <= s[|s| - 1] <= '9' then s[|s| - 1] as nat - '0' as nat else 0)
  }

  /** Writing and reading a count. */
  lemma {:induction false} DecimalReadsBack(n: nat)
    ensures Number(Decimal(n)) == n
  {
    if n >= 10 {
      DecimalReadsBack(n / 10);
      assert Decimal(n)[..|Decimal(n)| - 1] == Decimal(n / 10);
    } else {
      assert Decimal(n)[..0] == "";
    }
  }

  method Itoa(n: nat) returns (s: string)
    ensures s == Decimal(n)
  {
    if n == 0 {
      s := "0";
      assert Digit(0) == '0';
      assert s == [Digit(0)];
      return;
    }
    s := "";
    var m := n;
    while m > 0
      invariant 0 <= m && (m > 0 ==> Decimal(n) == Decimal(m) + s)
      invariant m == 0 ==> Decimal(n) == s
    {
      if m >= 10 {
        assert Decimal(m) + s == Decimal(m / 10) + ([Digit(m % 10)] + s);
      }
      s := [Digit(m % 10)] + s;
      m := m / 10;
    }
  }

  // ----- the whole string --------------------------------------------------

  function DropMarker(dropped: nat): string
  {
    "... (" + Decimal(dropped) + " log lines dropped) ..."
  }

  /** First lines, a marker that counts what is missing, the survivors in source
      order, last lines. */
  method Assemble(first: seq<string>, middle: seq<string>, last: seq<string>, score: Scorer)
      returns (out: seq<string>, ghost kept: set<nat>)
    ensures IsSelection(middle, score, kept)
    ensures |LinesAt(middle, kept, |middle|)| == |kept| <= |middle|
    ensures out == first + (if |kept| < |middle| then [DropMarker(|middle| - |kept|)] else [])
                   + LinesAt(middle, kept, |middle|) + last
  {
    var keptIdx := Select(middle, score);
    kept := keptIdx;
    var lines: seq<string> := [];
    for i := 0 to |middle|
      invariant lines == LinesAt(middle, keptIdx, i)
    {
      if i in keptIdx {
        lines := lines + [middle[i]];
      }
    }
    LinesAtCount(middle, kept, |middle|);
    var dropped := |middle| - |lines|;
    out := first;
    if dropped > 0 {
      var digits := Itoa(dropped);
      out := out + ["... (" + digits + " log lines dropped) ..."];
    }
    out := out + lines + last;
  }

  lemma {:induction false} LinesAtCount(lines: seq<string>, kept: set<nat>, n: nat)
    requires n <= |lines|
    ensures |LinesAt(lines, kept, n)| == |set i | i in kept && i < n| <= n
    ensures (forall i :: i in kept ==> i < n) ==> (set i | i in kept && i < n) == kept
  {
    var below := set i | i in kept && i < n;
    if n > 0 {
      LinesAtCount(lines, kept, n - 1);
      var under := set i | i in kept && i < n - 1;
      if n - 1 in kept {
        assert below == under + {n - 1};
      } else {
        assert below == under;
      }
    } else {
      assert below == {};
    }
  }

  type Dedupe = seq<string> -> seq<string>

  /** What the two dedupe passes make of the log. */
  function Deduped(lines: seq<string>, adjacent: Dedupe, byKeyword: Dedupe): seq<string>
    requires |lines| >= KEEP_FIRST + KEEP_LAST
  {
    byKeyword(lines[..KEEP_FIRST] + adjacent(lines[KEEP_FIRST..|lines| - KEEP_LAST]) + lines[|lines| - KEEP_LAST..])
  }

  function LevelCount(lines: seq<string>, isLevel: string -> bool, n: nat): nat
    requires n <= |lines|
  {
    if n == 0 then 0 else LevelCount(lines, isLevel, n - 1) + (if isLevel(lines[n - 1]) then 1 else 0)
  }

  predicate Compressible(lines: seq<string>, isLevel: string -> bool)
  {
    |lines| >= 20 && LevelCount(lines, isLevel, |lines|) >= 5
  }

  /** The middle that is up for selection, after deduplication and re-splitting. */
  function Middle(all: seq<string>): seq<string>
  {
    if |all| < KEEP_FIRST then []
    else if |all| < KEEP_FIRST + KEEP_LAST then all[KEEP_FIRST..]
    else all[KEEP_FIRST..|all| - KEEP_LAST]
  }

  function FirstPart(all: seq<string>): seq<string>
  {
    if |all| < KEEP_FIRST then all else all[..KEEP_FIRST]
  }

  function LastPart(all: seq<string>): seq<string>
  {
    if |all| < KEEP_FIRST + KEEP_LAST then [] else all[|all| - KEEP_LAST..]
  }

  /** The marker names how many lines are missing. */
  lemma MarkerReadsBack(dropped: nat)
    ensures exists digits ::
              DropMarker(dropped) == "... (" + digits + " log lines dropped) ..." && Number(digits) == dropped
  {
    DecimalReadsBack(dropped);
    hide Decimal, Number;
  }

  /** The three parts are the whole log, five lines at each end as far as there are. */
  lemma PartsAreTheLog(all: seq<string>)
    ensures FirstPart(all) + Middle(all) + LastPart(all) == all
    ensures |FirstPart(all)| == if |all| < 5 then |all| else 5
    ensures |LastPart(all)| == if |all| < 10 then 0 else 5
  {
  }

  /** The level test counts the lines that pass it. */
  lemma {:induction false} LevelCountIsSize(lines: seq<string>, isLevel: string -> bool, n: nat)
    requires n <= |lines|
    ensures LevelCount(lines, isLevel, n) == |set i | 0 <= i < n && isLevel(lines[i])|
  {
    var passing := set i | 0 <= i < n && isLevel(lines[i]);
    if n > 0 {
      LevelCountIsSize(lines, isLevel, n - 1);
      var before := set i | 0 <= i < n - 1 && isLevel(lines[i]);
      assert passing == before + if isLevel(lines[n - 1]) then {n - 1} else {};
    } else {
      assert passing == {};
    }
  }

  /** Each kept line stands in the output behind the kept lines before it. */
  lemma {:induction false} KeptLineStands(lines: seq<string>, kept: set<nat>, i: nat, n: nat)
    requires i < n <= |lines| && i in kept
    ensures |LinesAt(lines, kept, i)| < |LinesAt(lines, kept, n)|
    ensures LinesAt(lines, kept, n)[|LinesAt(lines, kept, i)|] == lines[i]
    ensures |LinesAt(lines, kept, i)| == |set j | j in kept && j < i|
  {
    LinesAtCount(lines, kept, i);
    if i < n - 1 {
      KeptLineStands(lines, kept, i, n - 1);
    }
  }

  /** What the two dedupe passes are given: all lines but five at each end, and then the
      whole log again. */
  lemma DedupedFromParts(f: seq<string>, m: seq<string>, l: seq<string>, adjacent: Dedupe, byKeyword: Dedupe)
    requires |f| == 5 && |l| == 5
    ensures Deduped(f + m + l, adjacent, byKeyword) == byKeyword(f + adjacent(m) + l)
  {
    var lines := f + m + l;
    assert lines[..5] == f && lines[5..|lines| - 5] == m && lines[|lines| - 5..] == l;
  }

  /** Small or unstructured texts come back unchanged; any other keeps its first and
      last lines around a sound selection of the middle. */
  method CompressStructuredString(s: string, score: Scorer, isLevel: string -> bool,
                                  adjacent: Dedupe, byKeyword: Dedupe)
      returns (out: string, ghost kept: set<nat>)
    ensures !Compressible(Lines(s), isLevel) ==> out == s
    ensures Compressible(Lines(s), isLevel) ==>
              var all := Deduped(Lines(s), adjacent, byKeyword);
              var middle := Middle(all);
              && IsSelection(middle, score, kept)
              && |LinesAt(middle, kept, |middle|)| == |kept| <= |middle|
              && out == JoinLines(FirstPart(all)
                                  + (if |kept| < |middle| then [DropMarker(|middle| - |kept|)] else [])
                                  + LinesAt(middle, kept, |middle|) + LastPart(all))
  {
    hide Lines, JoinLines, IsSelection, LinesAt, DropMarker;
    kept := {};
    var lines := Lines(s);
    if |lines| < 20 {
      return s, kept;
    }
    var levelCount := 0;
    for i := 0 to |lines|
      invariant levelCount == LevelCount(lines, isLevel, i)
    {
      if isLevel(lines[i]) {
        levelCount := levelCount + 1;
      }
    }
    if levelCount < 5 {
      return s, kept;
    }
    var firstLines := lines[..KEEP_FIRST];
    var lastLines := lines[|lines| - KEEP_LAST..];
    var middleLines := lines[KEEP_FIRST..|lines| - KEEP_LAST];
    middleLines := adjacent(middleLines);
    var allLines := byKeyword(firstLines + middleLines + lastLines);
    if |allLines| >= KEEP_FIRST {
      firstLines := allLines[..KEEP_FIRST];
      if |allLines| >= KEEP_FIRST + KEEP_LAST {
        middleLines := allLines[KEEP_FIRST..|allLines| - KEEP_LAST];
        lastLines := allLines[|allLines| - KEEP_LAST..];
      } else {
        middleLines := allLines[KEEP_FIRST..];
        lastLines := [];
      }
    } else {
      firstLines := allLines;
      middleLines := [];
      lastLines := [];
    }
    var result;
    result, kept := Assemble(firstLines, middleLines, lastLines, score);
    out := JoinLines(result);
  }
}
