// The telemetry view's diffs: a word diff over backward tables with a token cap,
// and a line diff that pairs changed lines into "mod" rows.
module ModDiff {
  import opened Text
  import opened Lcs

  // ----- tokens ------------------------------------------------------------

  /** Length of the run at the start of `line` on one side of `space`. */
  function RunLength(line: string, space: char -> bool): (n: nat)
    requires |line| > 0
    ensures 1 <= n <= |line|
    ensures forall k :: 0 <= k < n ==> space(line[k]) == space(line[0])
    ensures n < |line| ==> space(line[n]) != space(line[0])
  {
    if |line| > 1 && space(line[1]) == space(line[0]) then 1 + RunLength(line[1..], space) else 1
  }

  /** Alternating maximal runs of spaces and non-spaces. */
  function Tokenize(line: string, space: char -> bool): seq<string>
  {
    if |line| == 0 then []
    else
      var n := RunLength(line, space);
      [line[..n]] + Tokenize(line[n..], space)
  }

  function Concat(tokens: seq<string>): string
  {
    if |tokens| == 0 then "" else tokens[0] + Concat(tokens[1..])
  }

  lemma {:induction false} TokensSpellTheLine(line: string, space: char -> bool)
    ensures Concat(Tokenize(line, space)) == line
  {
    if |line| > 0 {
      var n := RunLength(line, space);
      TokensSpellTheLine(line[n..], space);
      assert line == line[..n] + line[n..];
    }
  }

  // ----- the table both walks read -----------------------------------------

  method BackwardTable<T(==)>(a: seq<T>, b: seq<T>) returns (dp: array2<nat>)
    ensures fresh(dp) && dp.Length0 == |a| + 1 && dp.Length1 == |b| + 1
    ensures forall i, j {:trigger dp[i, j]} :: 0 <= i <= |a| && 0 <= j <= |b| ==> dp[i, j] == Backward(a, b, i, j)
  {
    dp := new nat[|a| + 1, |b| + 1]((_, _) => 0);
    for i := |a| downto 0
      invariant forall r, c {:trigger dp[r, c]} :: i <= r <= |a| && 0 <= c <= |b| ==> dp[r, c] == Backward(a, b, r, c)
      invariant forall r, c {:trigger dp[r, c]} :: 0 <= r < i && 0 <= c <= |b| ==> dp[r, c] == 0
    {
      for j := |b| downto 0
        invariant forall r, c {:trigger dp[r, c]} :: i < r <= |a| && 0 <= c <= |b| ==> dp[r, c] == Backward(a, b, r, c)
        invariant forall c {:trigger dp[i, c]} :: j <= c <= |b| ==> dp[i, c] == Backward(a, b, i, c)
        invariant forall r, c {:trigger dp[r, c]} :: 0 <= r < i && 0 <= c <= |b| ==> dp[r, c] == 0
      {
        if a[i] == b[j] {
          dp[i, j] := dp[i + 1, j + 1] + 1;
        } else {
          dp[i, j] := Max(dp[i + 1, j], dp[i, j + 1]);
        }
      }
    }
  }

  // ----- word diff ---------------------------------------------------------

  const CAP := 400

  /** A highlighted token; no text stands for JavaScript's `undefined`. */
  datatype Part = Part(text: Option<string>, changed: bool)

  function Texts(parts: seq<Part>): seq<Option<string>>
  {
    seq(|parts|, k requires 0 <= k < |parts| => parts[k].text)
  }

  function Unchanged(parts: seq<Part>): seq<Option<string>>
  {
    if |parts| == 0 then []
    else
      var last := parts[|parts| - 1];
      Unchanged(parts[..|parts| - 1]) + (if last.changed then [] else [last.text])
  }

  lemma PartsPush(parts: seq<Part>, p: Part)
    ensures Texts(parts + [p]) == Texts(parts) + [p.text]
    ensures Unchanged(parts + [p]) == Unchanged(parts) + (if p.changed then [] else [p.text])
  {
    assert (parts + [p])[..|parts|] == parts;
  }

  function Whole(tokens: seq<string>): seq<Option<string>>
  {
    seq(|tokens|, k requires 0 <= k < |tokens| => Some(tokens[k]))
  }

  /** What the loops read: the list is cut at the cap, their bounds are not. */
  function Capped(tokens: seq<string>): seq<Option<string>>
  {
    seq(|tokens|, k requires 0 <= k < |tokens| => if k < CAP then Some(tokens[k]) else None)
  }

  lemma CapIsExact(tokens: seq<string>)
    ensures Capped(tokens) == Whole(tokens) <==> |tokens| <= CAP
  {
    if |tokens| > CAP {
      assert Capped(tokens)[CAP] != Whole(tokens)[CAP];
    }
  }

  lemma SubsequenceOfWhole(c: seq<string>, s: seq<string>)
    ensures Subsequence(c, s) <==> Subsequence(Whole(c), Whole(s))
  {
    if Subsequence(c, s) {
      var at :| Embeds(c, s, at);
      assert Embeds(Whole(c), Whole(s), at);
    }
    if Subsequence(Whole(c), Whole(s)) {
      var at :| Embeds(Whole(c), Whole(s), at);
      forall k | 0 <= k < |at|
        ensures 0 <= at[k] < |s| && s[at[k]] == c[k]
      {
        assert Whole(s)[at[k]] == Whole(c)[k];
      }
      assert Embeds(c, s, at);
    }
  }

  /** Wrapping tokens in `Some` leaves the greatest common length alone. */
  lemma LcsOfWhole(n: nat, a: seq<string>, b: seq<string>)
    requires IsLcsLength(n, Whole(a), Whole(b))
    ensures IsLcsLength(n, a, b)
  {
    var w: seq<Option<string>> :| Common(w, Whole(a), Whole(b)) && |w| == n;
    AllPresent(w, a);
    hide Whole, Subsequence;
    var c := seq(|w|, k requires 0 <= k < |w| => w[k].value);
    WholeOfValues(w, c);
    SubsequenceOfWhole(c, a);
    SubsequenceOfWhole(c, b);
    forall d | Common(d, a, b)
      ensures |d| <= n
    {
      SubsequenceOfWhole(d, a);
      SubsequenceOfWhole(d, b);
      WholeOfValues(Whole(d), d);
      assert Common(Whole(d), Whole(a), Whole(b));
    }
  }

  lemma AllPresent(w: seq<Option<string>>, a: seq<string>)
    requires Subsequence(w, Whole(a))
    ensures forall k :: 0 <= k < |w| ==> w[k].Some?
  {
    var at :| Embeds(w, Whole(a), at);
    forall k | 0 <= k < |w|
      ensures w[k].Some?
    {
      assert Whole(a)[at[k]] == w[k];
    }
  }

  lemma WholeOfValues(w: seq<Option<string>>, c: seq<string>)
    ensures |Whole(c)| == |c|
    ensures |c| == |w| && (forall k :: 0 <= k < |w| ==> w[k] == Some(c[k])) ==> Whole(c) == w
  {
  }

  ghost predicate IsWordDiff(left: seq<Part>, right: seq<Part>, aLine: string, bLine: string, space: char -> bool)
  {
    var a, b := Tokenize(aLine, space), Tokenize(bLine, space);
    && Texts(left) == Capped(a) && Texts(right) == Capped(b)
    && Unchanged(left) == Unchanged(right)
    && IsLcsLength(|Unchanged(left)|, Capped(a), Capped(b))
  }

  /** Both walks have spelled their prefixes and given up no match so far. */
  ghost predicate WordsWalked(left: seq<Part>, right: seq<Part>, a: seq<Option<string>>, b: seq<Option<string>>,
                              i: nat, j: nat)
    requires i <= |a| && j <= |b|
  {
    && Texts(left) == a[..i] && Texts(right) == b[..j]
    && Unchanged(left) == Unchanged(right)
    && |Unchanged(left)| + Backward(a, b, i, j) == Backward(a, b, 0, 0)
  }

  lemma WordsWalkSame(left: seq<Part>, right: seq<Part>, a: seq<Option<string>>, b: seq<Option<string>>, i: nat, j: nat)
    requires i < |a| && j < |b| && a[i] == b[j] && WordsWalked(left, right, a, b, i, j)
    ensures WordsWalked(left + [Part(a[i], false)], right + [Part(b[j], false)], a, b, i + 1, j + 1)
  {
    PartsPush(left, Part(a[i], false));
    PartsPush(right, Part(b[j], false));
  }

  lemma WordsWalkLeft(left: seq<Part>, right: seq<Part>, a: seq<Option<string>>, b: seq<Option<string>>, i: nat, j: nat)
    requires i < |a| && j <= |b| && WordsWalked(left, right, a, b, i, j)
    requires j < |b| ==> a[i] != b[j] && Backward(a, b, i + 1, j) >= Backward(a, b, i, j + 1)
    ensures WordsWalked(left + [Part(a[i], true)], right, a, b, i + 1, j)
  {
    PartsPush(left, Part(a[i], true));
  }

  lemma WordsWalkRight(left: seq<Part>, right: seq<Part>, a: seq<Option<string>>, b: seq<Option<string>>,
                       i: nat, j: nat)
    requires i <= |a| && j < |b| && WordsWalked(left, right, a, b, i, j)
    requires i < |a| ==> a[i] != b[j] && Backward(a, b, i + 1, j) < Backward(a, b, i, j + 1)
    ensures WordsWalked(left, right + [Part(b[j], true)], a, b, i, j + 1)
  {
    PartsPush(right, Part(b[j], true));
  }

  /** Both sides spell their capped token lists, highlight everything but one
      longest common subsequence, and lose no token exactly when the line has at
      most 400 of them. */
  method WordDiff(aLine: string, bLine: string, space: char -> bool) returns (left: seq<Part>, right: seq<Part>)
    ensures IsWordDiff(left, right, aLine, bLine, space)
    ensures Texts(left) == Whole(Tokenize(aLine, space)) <==> |Tokenize(aLine, space)| <= 400
    ensures Texts(right) == Whole(Tokenize(bLine, space)) <==> |Tokenize(bLine, space)| <= 400
    ensures |Tokenize(aLine, space)| <= 400 && |Tokenize(bLine, space)| <= 400 ==>
              IsLcsLength(|Unchanged(left)|, Tokenize(aLine, space), Tokenize(bLine, space))
  {
    var aT, bT := Tokenize(aLine, space), Tokenize(bLine, space);
    var a, b := Capped(aT), Capped(bT);
    left, right := WalkWords(a, b);
    TablesAgree(a, b);
    CapIsExact(aT);
    CapIsExact(bT);
    if |aT| <= CAP && |bT| <= CAP {
      LcsOfWhole(|Unchanged(left)|, aT, bT);
    }
  }

  method WalkWords(a: seq<Option<string>>, b: seq<Option<string>>) returns (left: seq<Part>, right: seq<Part>)
    ensures Texts(left) == a && Texts(right) == b
    ensures Unchanged(left) == Unchanged(right) && |Unchanged(left)| == Backward(a, b, 0, 0)
  {
    var m, n := |a|, |b|;
    var dp := BackwardTable(a, b);
    left, right := [], [];
    var i, j := 0, 0;
    while i < m && j < n
      invariant 0 <= i <= m && 0 <= j <= n
      invariant WordsWalked(left, right, a, b, i, j)
      modifies {}
      decreases m - i + n - j
    {
      if a[i] == b[j] {
        WordsWalkSame(left, right, a, b, i, j);
        left := left + [Part(a[i], false)];
        right := right + [Part(b[j], false)];
        i := i + 1;
        j := j + 1;
      } else if dp[i + 1, j] >= dp[i, j + 1] {
        WordsWalkLeft(left, right, a, b, i, j);
        left := left + [Part(a[i], true)];
        i := i + 1;
      } else {
        WordsWalkRight(left, right, a, b, i, j);
        right := right + [Part(b[j], true)];
        j := j + 1;
      }
    }
    while i < m
      invariant 0 <= i <= m && (i < m ==> j == n)
      invariant WordsWalked(left, right, a, b, i, j)
    {
      WordsWalkLeft(left, right, a, b, i, j);
      left := left + [Part(a[i], true)];
      i := i + 1;
    }
    while j < n
      invariant 0 <= j <= n
      invariant WordsWalked(left, right, a, b, i, j)
    {
      WordsWalkRight(left, right, a, b, i, j);
      right := right + [Part(b[j], true)];
      j := j + 1;
    }
  }

  // ----- line diff with "mod" rows -----------------------------------------

  datatype Row =
    | Same(aLine: string, bLine: string)
    | Add(bLine: string)
    | Del(aLine: string)
    | Mod(aLine: string, bLine: string, left: seq<Part>, right: seq<Part>)

  function ASide(rows: seq<Row>): seq<string>
  {
    if |rows| == 0 then []
    else
      var last := rows[|rows| - 1];
      ASide(rows[..|rows| - 1]) + (if last.Add? then [] else [last.aLine])
  }

  function BSide(rows: seq<Row>): seq<string>
  {
    if |rows| == 0 then []
    else
      var last := rows[|rows| - 1];
      BSide(rows[..|rows| - 1]) + (if last.Del? then [] else [last.bLine])
  }

  datatype Stats = Stats(same: nat, added: nat, removed: nat, modified: nat)

  function Count(rows: seq<Row>): Stats
  {
    if |rows| == 0 then Stats(0, 0, 0, 0)
    else
      var s := Count(rows[..|rows| - 1]);
      match rows[|rows| - 1]
      case Same(_, _) => s.(same := s.same + 1)
      case Add(_) => s.(added := s.added + 1)
      case Del(_) => s.(removed := s.removed + 1)
      case Mod(_, _, _, _) => s.(modified := s.modified + 1)
  }

  lemma RowsPush(rows: seq<Row>, r: Row)
    ensures ASide(rows + [r]) == ASide(rows) + (if r.Add? then [] else [r.aLine])
    ensures BSide(rows + [r]) == BSide(rows) + (if r.Del? then [] else [r.bLine])
    ensures (rows + [r])[..|rows|] == rows && (rows + [r])[|rows|] == r
  {
    assert (rows + [r])[..|rows|] == rows;
  }

  lemma {:induction false} CountMeasuresSides(rows: seq<Row>)
    ensures Count(rows).same + Count(rows).removed + Count(rows).modified == |ASide(rows)|
    ensures Count(rows).same + Count(rows).added + Count(rows).modified == |BSide(rows)|
  {
    if |rows| > 0 {
      CountMeasuresSides(rows[..|rows| - 1]);
    }
  }

  /** Matches given up by the "mod" steps of the walk from (i, j) on. */
  function Losses(a: seq<string>, b: seq<string>, i: nat, j: nat): int
    requires i <= |a| && j <= |b|
    decreases |a| - i + |b| - j
  {
    if i == |a| || j == |b| then 0
    else if a[i] == b[j] then Losses(a, b, i + 1, j + 1)
    else if Backward(a, b, i + 1, j) > Backward(a, b, i, j + 1) then Losses(a, b, i + 1, j)
    else if Backward(a, b, i, j + 1) > Backward(a, b, i + 1, j) then Losses(a, b, i, j + 1)
    else Losses(a, b, i + 1, j + 1) + Backward(a, b, i, j) - Backward(a, b, i + 1, j + 1)
  }

  lemma TieLosesAtMostOne(a: seq<string>, b: seq<string>, i: nat, j: nat)
    requires i < |a| && j < |b| && a[i] != b[j] && Backward(a, b, i + 1, j) == Backward(a, b, i, j + 1)
    ensures 0 <= Backward(a, b, i, j) - Backward(a, b, i + 1, j + 1) <= 1
  {
    BackwardSteps(a, b, i + 1, j);
  }

  lemma {:induction false} LossesNotNegative(a: seq<string>, b: seq<string>, i: nat, j: nat)
    requires i <= |a| && j <= |b|
    ensures Losses(a, b, i, j) >= 0
    decreases |a| - i + |b| - j
  {
    if i < |a| && j < |b| {
      if a[i] == b[j] {
        LossesNotNegative(a, b, i + 1, j + 1);
      } else if Backward(a, b, i + 1, j) > Backward(a, b, i, j + 1) {
        LossesNotNegative(a, b, i + 1, j);
      } else if Backward(a, b, i, j + 1) > Backward(a, b, i + 1, j) {
        LossesNotNegative(a, b, i, j + 1);
      } else {
        TieLosesAtMostOne(a, b, i, j);
        LossesNotNegative(a, b, i + 1, j + 1);
      }
    }
  }

  /** The places the walk visits from (i, j) on while both texts have lines left. */
  function Places(a: seq<string>, b: seq<string>, i: nat, j: nat): (places: seq<(nat, nat)>)
    requires i <= |a| && j <= |b|
    ensures forall p :: p in places ==> p.0 < |a| && p.1 < |b|
    decreases |a| - i + |b| - j
  {
    if i == |a| || j == |b| then []
    else
      [(i, j)] +
      if a[i] == b[j] then Places(a, b, i + 1, j + 1)
      else if Backward(a, b, i + 1, j) > Backward(a, b, i, j + 1) then Places(a, b, i + 1, j)
      else if Backward(a, b, i, j + 1) > Backward(a, b, i + 1, j) then Places(a, b, i, j + 1)
      else Places(a, b, i + 1, j + 1)
  }

  /** Both neighbouring cells tie, and the cell diagonally behind them holds less. */
  predicate LossyTie(a: seq<string>, b: seq<string>, p: (nat, nat))
    requires p.0 < |a| && p.1 < |b|
  {
    var (i, j) := p;
    && a[i] != b[j] && Backward(a, b, i + 1, j) == Backward(a, b, i, j + 1)
    && Backward(a, b, i + 1, j) > Backward(a, b, i + 1, j + 1)
  }

  ghost predicate NoLossyTie(a: seq<string>, b: seq<string>, places: seq<(nat, nat)>)
    requires forall p :: p in places ==> p.0 < |a| && p.1 < |b|
  {
    forall p :: p in places ==> !LossyTie(a, b, p)
  }

  /** The walk loses nothing exactly when it comes to no lossy tie. */
  lemma {:induction false} LosesNothingIff(a: seq<string>, b: seq<string>, i: nat, j: nat)
    requires i <= |a| && j <= |b|
    ensures Losses(a, b, i, j) == 0 <==> NoLossyTie(a, b, Places(a, b, i, j))
    decreases |a| - i + |b| - j
  {
    if i < |a| && j < |b| {
      var next := PlacesStep(a, b, i, j);
      LosesNothingIff(a, b, next.0, next.1);
      LossesNotNegative(a, b, next.0, next.1);
      hide *;
      NoTieInFront(a, b, (i, j), Places(a, b, next.0, next.1));
    }
  }

  lemma NoTieInFront(a: seq<string>, b: seq<string>, p: (nat, nat), places: seq<(nat, nat)>)
    requires p.0 < |a| && p.1 < |b| && forall q :: q in places ==> q.0 < |a| && q.1 < |b|
    ensures NoLossyTie(a, b, [p] + places) <==> !LossyTie(a, b, p) && NoLossyTie(a, b, places)
  {
    hide LossyTie;
    assert p in [p] + places && forall q :: q in places ==> q in [p] + places;
  }

  /** Where the walk goes next, and what it loses on the way. */
  lemma PlacesStep(a: seq<string>, b: seq<string>, i: nat, j: nat) returns (next: (nat, nat))
    requires i < |a| && j < |b|
    ensures next.0 <= |a| && next.1 <= |b| && i + j < next.0 + next.1
    ensures Places(a, b, i, j) == [(i, j)] + Places(a, b, next.0, next.1)
    ensures Losses(a, b, i, j) == Losses(a, b, next.0, next.1) + if LossyTie(a, b, (i, j)) then 1 else 0
  {
    if a[i] == b[j] {
      next := (i + 1, j + 1);
    } else if Backward(a, b, i + 1, j) > Backward(a, b, i, j + 1) {
      next := (i + 1, j);
    } else if Backward(a, b, i, j + 1) > Backward(a, b, i + 1, j) {
      next := (i, j + 1);
    } else {
      TieLosesAtMostOne(a, b, i, j);
      next := (i + 1, j + 1);
    }
  }

  lemma LcsLengthIsUnique(n: nat, loss: nat, a: seq<string>, b: seq<string>)
    requires IsLcsLength(n + loss, a, b)
    ensures IsLcsLength(n, a, b) <==> loss == 0
  {
    if IsLcsLength(n, a, b) {
      var c :| Common(c, a, b) && |c| == n + loss;
    }
  }

  ghost predicate ModRowsSound(rows: seq<Row>, space: char -> bool)
  {
    forall r :: r in rows ==>
      match r
      case Same(x, y) => x == y
      case Mod(x, y, left, right) => x != y && IsWordDiff(left, right, x, y, space)
      case _ => true
  }

  ghost predicate RowsWalked(rows: seq<Row>, a: seq<string>, b: seq<string>, i: nat, j: nat, space: char -> bool)
    requires i <= |a| && j <= |b|
  {
    && ASide(rows) == a[..i] && BSide(rows) == b[..j]
    && ModRowsSound(rows, space)
    && Count(rows).same + Backward(a, b, i, j) - Losses(a, b, i, j) == Backward(a, b, 0, 0) - Losses(a, b, 0, 0)
    && Losses(a, b, 0, 0) - Losses(a, b, i, j) <= Count(rows).modified
  }

  lemma RowsWalkPaired(rows: seq<Row>, a: seq<string>, b: seq<string>, i: nat, j: nat, r: Row, space: char -> bool)
    requires i < |a| && j < |b| && RowsWalked(rows, a, b, i, j, space)
    requires (r.Same? || r.Mod?) && r.aLine == a[i] && r.bLine == b[j] && ModRowsSound([r], space)
    requires r.Mod? ==> Backward(a, b, i + 1, j) == Backward(a, b, i, j + 1)
    ensures RowsWalked(rows + [r], a, b, i + 1, j + 1, space)
  {
    hide ModRowsSound, ASide, BSide, Count, Losses, Backward;
    RowsPush(rows, r);
    PairedSound(rows, r, space);
    CountPaired(rows, r);
    PairedBalance(a, b, i, j);
    assert a[..i + 1] == a[..i] + [a[i]] && b[..j + 1] == b[..j] + [b[j]];
  }

  lemma CountPaired(rows: seq<Row>, r: Row)
    requires r.Same? || r.Mod?
    ensures Count(rows + [r]).same == Count(rows).same + if r.Same? then 1 else 0
    ensures Count(rows + [r]).modified == Count(rows).modified + if r.Mod? then 1 else 0
  {
    RowsPush(rows, r);
  }

  /** A match keeps the balance of table and losses; a tie moves at most one line from
      the table to the losses. */
  lemma PairedBalance(a: seq<string>, b: seq<string>, i: nat, j: nat)
    requires i < |a| && j < |b| && (a[i] == b[j] || Backward(a, b, i + 1, j) == Backward(a, b, i, j + 1))
    ensures var lost := Losses(a, b, i, j) - Losses(a, b, i + 1, j + 1);
            && Backward(a, b, i, j) - Losses(a, b, i, j)
               == Backward(a, b, i + 1, j + 1) - Losses(a, b, i + 1, j + 1) + (if a[i] == b[j] then 1 else 0)
            && (if a[i] == b[j] then lost == 0 else 0 <= lost <= 1)
  {
    if a[i] != b[j] {
      TieLosesAtMostOne(a, b, i, j);
    }
  }

  lemma PairedSound(rows: seq<Row>, r: Row, space: char -> bool)
    requires ModRowsSound(rows, space) && ModRowsSound([r], space)
    ensures ModRowsSound(rows + [r], space)
    ensures r.Same? ==> r.aLine == r.bLine
    ensures r.Mod? ==> r.aLine != r.bLine
  {
    assert r in [r];
  }

  lemma RowsWalkDel(rows: seq<Row>, a: seq<string>, b: seq<string>, i: nat, j: nat, space: char -> bool)
    requires i < |a| && j <= |b| && RowsWalked(rows, a, b, i, j, space)
    requires j < |b| ==> a[i] != b[j] && Backward(a, b, i + 1, j) > Backward(a, b, i, j + 1)
    ensures RowsWalked(rows + [Del(a[i])], a, b, i + 1, j, space)
  {
    RowsPush(rows, Del(a[i]));
  }

  lemma RowsWalkAdd(rows: seq<Row>, a: seq<string>, b: seq<string>, i: nat, j: nat, space: char -> bool)
    requires i <= |a| && j < |b| && RowsWalked(rows, a, b, i, j, space)
    requires i < |a| ==> a[i] != b[j] && Backward(a, b, i, j + 1) > Backward(a, b, i + 1, j)
    ensures RowsWalked(rows + [Add(b[j])], a, b, i, j + 1, space)
  {
    RowsPush(rows, Add(b[j]));
  }

  /** The rows spell both texts, the statistics add up to both line counts, the
      unchanged rows fall short of a longest common subsequence by exactly the
      losses of the walk, so by nothing exactly when it comes to no lossy tie, and
      unchanged and modified rows together never do. */
  method LineDiff(original: string, optimized: string, space: char -> bool) returns (rows: seq<Row>, stats: Stats)
    ensures JoinLines(ASide(rows)) == original && JoinLines(BSide(rows)) == optimized
    ensures ASide(rows) == Lines(original) && BSide(rows) == Lines(optimized)
    ensures ModRowsSound(rows, space)
    ensures stats == Count(rows)
    ensures stats.same + stats.removed + stats.modified == |Lines(original)|
    ensures stats.same + stats.added + stats.modified == |Lines(optimized)|
    ensures 0 <= Losses(Lines(original), Lines(optimized), 0, 0) <= stats.modified
    ensures IsLcsLength(stats.same + Losses(Lines(original), Lines(optimized), 0, 0), Lines(original), Lines(optimized))
    ensures var a, b := Lines(original), Lines(optimized);
            IsLcsLength(stats.same, a, b) <==> NoLossyTie(a, b, Places(a, b, 0, 0))
  {
    var a, b := Lines(original), Lines(optimized);
    rows := WalkRows(a, b, space);
    stats := Stats(0, 0, 0, 0);
    for k := 0 to |rows|
      invariant stats == Count(rows[..k])
    {
      assert rows[..k + 1][..k] == rows[..k];
      match rows[k]
      case Same(_, _) => stats := stats.(same := stats.same + 1);
      case Add(_) => stats := stats.(added := stats.added + 1);
      case Del(_) => stats := stats.(removed := stats.removed + 1);
      case Mod(_, _, _, _) => stats := stats.(modified := stats.modified + 1);
    }
    assert rows[..|rows|] == rows;
    CountMeasuresSides(rows);
    TablesAgree(a, b);
    LossesNotNegative(a, b, 0, 0);
    LosesNothingIff(a, b, 0, 0);
    LcsLengthIsUnique(stats.same, Losses(a, b, 0, 0), a, b);
    JoinLinesOfLines(original);
    JoinLinesOfLines(optimized);
  }

  method WalkRows(a: seq<string>, b: seq<string>, space: char -> bool) returns (rows: seq<Row>)
    ensures ASide(rows) == a && BSide(rows) == b && ModRowsSound(rows, space)
    ensures Count(rows).same + Losses(a, b, 0, 0) == Backward(a, b, 0, 0)
    ensures Losses(a, b, 0, 0) <= Count(rows).modified
  {
    var m, n := |a|, |b|;
    var dp := BackwardTable(a, b);
    rows := [];
    var i, j := 0, 0;
    while i < m && j < n
      invariant 0 <= i <= m && 0 <= j <= n
      invariant RowsWalked(rows, a, b, i, j, space)
      modifies {}
      decreases m - i + n - j
    {
      if a[i] == b[j] {
        RowsWalkPaired(rows, a, b, i, j, Same(a[i], b[j]), space);
        rows := rows + [Same(a[i], b[j])];
        i := i + 1;
        j := j + 1;
      } else if dp[i + 1, j] >= dp[i, j + 1] && dp[i + 1, j] > dp[i, j + 1] {
        RowsWalkDel(rows, a, b, i, j, space);
        rows := rows + [Del(a[i])];
        i := i + 1;
      } else if dp[i, j + 1] > dp[i + 1, j] {
        RowsWalkAdd(rows, a, b, i, j, space);
        rows := rows + [Add(b[j])];
        j := j + 1;
      } else {
        var left, right := WordDiff(a[i], b[j], space);
        RowsWalkPaired(rows, a, b, i, j, Mod(a[i], b[j], left, right), space);
        rows := rows + [Mod(a[i], b[j], left, right)];
        i := i + 1;
        j := j + 1;
      }
    }
    while i < m
      invariant 0 <= i <= m && (i < m ==> j == n)
      invariant RowsWalked(rows, a, b, i, j, space)
    {
      RowsWalkDel(rows, a, b, i, j, space);
      rows := rows + [Del(a[i])];
      i := i + 1;
    }
    while j < n
      invariant 0 <= j <= n
      invariant RowsWalked(rows, a, b, i, j, space)
    {
      RowsWalkAdd(rows, a, b, i, j, space);
      rows := rows + [Add(b[j])];
      j := j + 1;
    }
  }

  /** The line diff is not optimal: swapping two lines loses their common line. */
  lemma LineDiffIsNotOptimal()
    ensures Backward(["x", "y"], ["y", "x"], 0, 0) == 1
    ensures Losses(["x", "y"], ["y", "x"], 0, 0) == 1
  {
    var a, b := ["x", "y"], ["y", "x"];
    assert Backward(a, b, 2, 0) == Backward(a, b, 0, 2) == Backward(a, b, 1, 1) == 0;
    assert Losses(a, b, 1, 1) == Losses(a, b, 2, 2) == 0;
  }
}
