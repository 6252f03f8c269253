// The request explorer's line diff: a forward table, then a walk from its last
// cell back to its first.
module LineDiff {
  import opened Text
  import opened Lcs

  datatype Kind = Added | Removed | Unchanged

  datatype Row = Row(kind: Kind, value: string)

  /** The values of the rows of the given kinds, in order. */
  function Values(rows: seq<Row>, kinds: set<Kind>): seq<string>
  {
    if |rows| == 0 then []
    else (if rows[0].kind in kinds then [rows[0].value] else []) + Values(rows[1..], kinds)
  }

  const OLD_SIDE := {Removed, Unchanged}
  const NEW_SIDE := {Added, Unchanged}
  const KEPT := {Unchanged}

  lemma ValuesUnshift(row: Row, rows: seq<Row>, kinds: set<Kind>)
    ensures Values([row] + rows, kinds)
         == (if row.kind in kinds then [row.value] else []) + Values(rows, kinds)
  {
    assert ([row] + rows)[1..] == rows;
  }

  /** The rows spell what the walk has left behind, and no match was given up. */
  ghost predicate Walked(rows: seq<Row>, a: seq<string>, b: seq<string>, i: nat, j: nat)
    requires i <= |a| && j <= |b|
  {
    && Values(rows, OLD_SIDE) == a[i..]
    && Values(rows, NEW_SIDE) == b[j..]
    && |Values(rows, KEPT)| + Forward(a, b, i, j) == Forward(a, b, |a|, |b|)
  }

  lemma WalkUnchanged(rows: seq<Row>, a: seq<string>, b: seq<string>, i: nat, j: nat)
    requires 0 < i <= |a| && 0 < j <= |b| && a[i - 1] == b[j - 1]
    requires Walked(rows, a, b, i, j)
    ensures Walked([Row(Unchanged, a[i - 1])] + rows, a, b, i - 1, j - 1)
  {
    var row := Row(Unchanged, a[i - 1]);
    ValuesUnshift(row, rows, OLD_SIDE);
    ValuesUnshift(row, rows, NEW_SIDE);
    ValuesUnshift(row, rows, KEPT);
  }

  lemma WalkAdded(rows: seq<Row>, a: seq<string>, b: seq<string>, i: nat, j: nat)
    requires i <= |a| && 0 < j <= |b| && Walked(rows, a, b, i, j)
    requires i == 0 || (a[i - 1] != b[j - 1] && Forward(a, b, i, j - 1) >= Forward(a, b, i - 1, j))
    ensures Walked([Row(Added, b[j - 1])] + rows, a, b, i, j - 1)
  {
    var row := Row(Added, b[j - 1]);
    ValuesUnshift(row, rows, OLD_SIDE);
    ValuesUnshift(row, rows, NEW_SIDE);
    ValuesUnshift(row, rows, KEPT);
  }

  lemma WalkRemoved(rows: seq<Row>, a: seq<string>, b: seq<string>, i: nat, j: nat)
    requires 0 < i <= |a| && j <= |b| && Walked(rows, a, b, i, j)
    requires j == 0 || (a[i - 1] != b[j - 1] && Forward(a, b, i, j - 1) < Forward(a, b, i - 1, j))
    ensures Walked([Row(Removed, a[i - 1])] + rows, a, b, i - 1, j)
  {
    var row := Row(Removed, a[i - 1]);
    ValuesUnshift(row, rows, OLD_SIDE);
    ValuesUnshift(row, rows, NEW_SIDE);
    ValuesUnshift(row, rows, KEPT);
  }

  method FillTable(a: seq<string>, b: seq<string>) returns (matrix: array2<nat>)
    ensures fresh(matrix) && matrix.Length0 == |a| + 1 && matrix.Length1 == |b| + 1
    ensures forall i, j {:trigger matrix[i, j]} :: 0 <= i <= |a| && 0 <= j <= |b| ==>
              matrix[i, j] == Forward(a, b, i, j)
  {
    matrix := new nat[|a| + 1, |b| + 1]((_, _) => 0);
    for i := 1 to |a| + 1
      invariant forall r, c {:trigger matrix[r, c]} :: 0 <= r < i && 0 <= c <= |b| ==>
                matrix[r, c] == Forward(a, b, r, c)
      invariant forall r, c {:trigger matrix[r, c]} :: i <= r <= |a| && 0 <= c <= |b| ==> matrix[r, c] == 0
    {
      for j := 1 to |b| + 1
        invariant forall r, c {:trigger matrix[r, c]} :: 0 <= r < i && 0 <= c <= |b| ==>
                  matrix[r, c] == Forward(a, b, r, c)
        invariant forall c {:trigger matrix[i, c]} :: 0 <= c < j ==> matrix[i, c] == Forward(a, b, i, c)
        invariant forall r, c {:trigger matrix[r, c]} :: i < r <= |a| && 0 <= c <= |b| ==> matrix[r, c] == 0
      {
        if a[i - 1] == b[j - 1] {
          matrix[i, j] := matrix[i - 1, j - 1] + 1;
        } else {
          matrix[i, j] := Max(matrix[i - 1, j], matrix[i, j - 1]);
        }
      }
    }
  }

  lemma WalkStarts(a: seq<string>, b: seq<string>)
    ensures Walked([], a, b, |a|, |b|)
  {
  }

  lemma WalkEnds(rows: seq<Row>, a: seq<string>, b: seq<string>)
    requires Walked(rows, a, b, 0, 0)
    ensures Values(rows, OLD_SIDE) == a && Values(rows, NEW_SIDE) == b && IsLcsLength(|Values(rows, KEPT)|, a, b)
  {
    hide IsLcsLength;
    TablesAgree(a, b);
  }

  /** Removed and unchanged rows spell the original, added and unchanged rows spell
      the modified text, and no diff has more unchanged rows. */
  method ComputeLineDiff(original: string, modified: string) returns (result: seq<Row>)
    ensures JoinLines(Values(result, OLD_SIDE)) == original
    ensures JoinLines(Values(result, NEW_SIDE)) == modified
    ensures Values(result, OLD_SIDE) == Lines(original) && Values(result, NEW_SIDE) == Lines(modified)
    ensures IsLcsLength(|Values(result, KEPT)|, Lines(original), Lines(modified))
  {
    hide *;
    var a, b := Lines(original), Lines(modified);
    var matrix := FillTable(a, b);
    result := [];
    var i, j := |a|, |b|;
    WalkStarts(a, b);
    while i > 0 || j > 0
      invariant 0 <= i <= |a| && 0 <= j <= |b|
      invariant Walked(result, a, b, i, j)
      modifies {}
      decreases i + j
    {
      if i > 0 && j > 0 && a[i - 1] == b[j - 1] {
        WalkUnchanged(result, a, b, i, j);
        result := [Row(Unchanged, a[i - 1])] + result;
        i := i - 1;
        j := j - 1;
      } else if j > 0 && (i == 0 || matrix[i, j - 1] >= matrix[i - 1, j]) {
        WalkAdded(result, a, b, i, j);
        result := [Row(Added, b[j - 1])] + result;
        j := j - 1;
      } else {
        WalkRemoved(result, a, b, i, j);
        result := [Row(Removed, a[i - 1])] + result;
        i := i - 1;
      }
    }
    WalkEnds(result, a, b);
    JoinLinesOfLines(original);
    JoinLinesOfLines(modified);
  }
}
