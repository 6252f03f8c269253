// Vocabulary shared by the other modules: options, substring occurrence, and
// the split/join of a text at line feeds.
//
// A Go byte string is a `string` here, one char per byte.  Nothing below bounds
// the chars, so every statement about strings holds for bytes in particular.
module Text {

  datatype Option<+T> = None | Some(value: T)

  /** The position `r` counted from `n` places earlier. */
  function Shift(n: nat, r: Option<nat>): Option<nat>
  {
    match r
    case None => None
    case Some(k) => Some(n + k)
  }

  // ----- substring search ------------------------------------------------

  predicate HasPrefix(s: string, prefix: string)
  {
    prefix <= s
  }

  predicate OccursAt(s: string, lit: string, k: int)
  {
    0 <= k <= |s| - |lit| && s[k..k + |lit|] == lit
  }

  /** Slices of a tail are slices of the whole. */
  lemma SliceOfTail(s: string, d: nat, a: nat, b: nat)
    requires d <= a <= b <= |s|
    ensures s[d..][a - d..b - d] == s[a..b]
  {
    var x, y := s[d..][a - d..b - d], s[a..b];
    forall i | 0 <= i < b - a
      ensures x[i] == y[i]
    {
      assert x[i] == s[d..][a - d + i] == s[a + i];
      assert y[i] == s[a + i];
    }
  }

  lemma SliceOfPrefix(s: string, n: nat, a: nat, b: nat)
    requires a <= b <= n <= |s|
    ensures s[..n][a..b] == s[a..b]
  {
    var x, y := s[..n][a..b], s[a..b];
    forall i | 0 <= i < b - a
      ensures x[i] == y[i]
    {
      assert x[i] == s[..n][a + i] == s[a + i];
      assert y[i] == s[a + i];
    }
  }

  lemma OccursAtTail(s: string, lit: string, k: int)
    requires |s| >= 1 && k >= 1
    ensures OccursAt(s, lit, k) == OccursAt(s[1..], lit, k - 1)
  {
    if k <= |s| - |lit| {
      SliceOfTail(s, 1, k, k + |lit|);
    }
  }

  /** The least offset at which `lit` occurs in `s`, or -1. */
  function IndexOf(s: string, lit: string): (r: int)
    ensures -1 <= r <= |s| - |lit| || r == -1
  {
    if |lit| > |s| then -1
    else if lit <= s then 0
    else if |s| == 0 then -1
    else
      var r := IndexOf(s[1..], lit);
      if r < 0 then -1 else r + 1
  }

  lemma {:induction false} IndexOfIsLeast(s: string, lit: string)
    ensures IndexOf(s, lit) >= 0 ==> OccursAt(s, lit, IndexOf(s, lit))
    ensures forall k :: 0 <= k && (IndexOf(s, lit) < 0 || k < IndexOf(s, lit)) ==> !OccursAt(s, lit, k)
  {
    hide OccursAt;
    if |lit| > |s| || lit <= s || |s| == 0 {
      FoundOrTooShort(s, lit);
    } else {
      assert !OccursAt(s, lit, 0) by { AtFront(s, lit); }
      IndexOfIsLeast(s[1..], lit);
      forall k | 1 <= k
        ensures OccursAt(s, lit, k) == OccursAt(s[1..], lit, k - 1)
      {
        OccursAtTail(s, lit, k);
      }
    }
  }

  lemma FoundOrTooShort(s: string, lit: string)
    requires |lit| > |s| || lit <= s
    ensures if lit <= s then OccursAt(s, lit, 0) else forall k :: 0 <= k ==> !OccursAt(s, lit, k)
  {
  }

  lemma AtFront(s: string, lit: string)
    ensures OccursAt(s, lit, 0) <==> lit <= s
  {
  }

  /** The characterisation above determines the index. */
  lemma LeastIsIndexOf(s: string, lit: string, r: int)
    requires r >= 0 ==> OccursAt(s, lit, r)
    requires forall k :: 0 <= k && (r < 0 || k < r) ==> !OccursAt(s, lit, k)
    requires r >= -1
    ensures IndexOf(s, lit) == r
  {
    IndexOfIsLeast(s, lit);
  }

  lemma Differs(s: string, lit: string, k: nat, j: nat)
    requires j < |lit| && k + j < |s| && s[k + j] != lit[j]
    ensures !OccursAt(s, lit, k)
  {
    if k <= |s| - |lit| {
      assert s[k..k + |lit|][j] == s[k + j];
    }
  }

  lemma Agrees(s: string, lit: string, k: nat)
    requires k + |lit| <= |s| && forall j :: 0 <= j < |lit| ==> s[k + j] == lit[j]
    ensures OccursAt(s, lit, k)
  {
    var x := s[k..k + |lit|];
    forall j | 0 <= j < |lit|
      ensures x[j] == lit[j]
    {
      assert x[j] == s[k + j];
    }
  }

  /** The byte search every scanner of the proxy calls, loops and all. */
  method BytesIndex(haystack: string, needle: string) returns (r: int)
    ensures r == IndexOf(haystack, needle)
  {
    if |needle| == 0 {
      return 0;
    }
    if |needle| > |haystack| {
      return -1;
    }
    hide IndexOf, OccursAt;
    var i := 0;
    while i + |needle| <= |haystack|
      invariant 0 <= i <= |haystack| - |needle| + 1
      invariant forall k :: 0 <= k < i ==> !OccursAt(haystack, needle, k)
    {
      var isMatch := true;
      var j := 0;
      while j < |needle|
        invariant 0 <= j <= |needle|
        invariant isMatch
        invariant forall k :: 0 <= k < j ==> haystack[i + k] == needle[k]
      {
        if haystack[i + j] != needle[j] {
          Differs(haystack, needle, i, j);
          isMatch := false;
          break;
        }
        j := j + 1;
      }
      if isMatch {
        Agrees(haystack, needle, i);
        LeastIsIndexOf(haystack, needle, i);
        return i;
      }
      i := i + 1;
    }
    BeyondTheEnd(haystack, needle);
    LeastIsIndexOf(haystack, needle, -1);
    return -1;
  }

  lemma BeyondTheEnd(s: string, lit: string)
    ensures forall k :: k > |s| - |lit| ==> !OccursAt(s, lit, k)
  {
  }

  /** Two strings that agree up to the end of the first occurrence in one of them
      have that same first occurrence. */
  lemma {:induction false} IndexOfShared(s: string, t: string, lit: string, n: nat)
    requires n <= |s| && n <= |t| && s[..n] == t[..n]
    requires 0 <= IndexOf(s, lit) && IndexOf(s, lit) + |lit| <= n
    ensures IndexOf(t, lit) == IndexOf(s, lit)
  {
    var r := IndexOf(s, lit);
    IndexOfIsLeast(s, lit);
    forall k | 0 <= k <= r
      ensures OccursAt(t, lit, k) == OccursAt(s, lit, k)
    {
      SliceOfPrefix(s, n, k, k + |lit|);
      SliceOfPrefix(t, n, k, k + |lit|);
    }
    assert OccursAt(t, lit, r);
    LeastIsIndexOf(t, lit, r);
  }

  /** Every occurrence of `target`, left to right and not overlapping, replaced. */
  function ReplaceAll(s: string, target: string, replacement: string): string
    requires |target| > 0
  {
    if |s| < |target| then s
    else if target <= s then replacement + ReplaceAll(s[|target|..], target, replacement)
    else [s[0]] + ReplaceAll(s[1..], target, replacement)
  }

  lemma ReplaceHit(target: string, rest: string, replacement: string)
    requires |target| > 0
    ensures ReplaceAll(target + rest, target, replacement) == replacement + ReplaceAll(rest, target, replacement)
  {
    var s := target + rest;
    assert target <= s && s[|target|..] == rest;
  }

  lemma ReplaceMiss(c: char, rest: string, target: string, replacement: string)
    requires |target| > 0 && !(target <= [c] + rest)
    ensures ReplaceAll([c] + rest, target, replacement) == [c] + ReplaceAll(rest, target, replacement)
  {
    assert ([c] + rest)[1..] == rest;
  }

  // ----- lines -----------------------------------------------------------

  /** The pieces of `s` between line feeds: never empty as a list. */
  function Lines(s: string): (ls: seq<string>)
    ensures |ls| >= 1
  {
    if s == "" then [""]
    else
      var rest := Lines(s[1..]);
      if s[0] == '\n' then [""] + rest else [[s[0]] + rest[0]] + rest[1..]
  }

  function JoinLines(ls: seq<string>): string
  {
    if |ls| == 0 then ""
    else if |ls| == 1 then ls[0]
    else ls[0] + "\n" + JoinLines(ls[1..])
  }

  lemma {:induction false} JoinLinesOfLines(s: string)
    ensures JoinLines(Lines(s)) == s
  {
    if s != "" {
      JoinLinesOfLines(s[1..]);
      var rest := Lines(s[1..]);
      if s[0] == '\n' {
        assert ([""] + rest)[1..] == rest;
        assert JoinLines(Lines(s)) == "" + "\n" + s[1..];
      } else {
        assert ([[s[0]] + rest[0]] + rest[1..])[1..] == rest[1..];
        if |rest| > 1 {
          assert JoinLines(Lines(s)) == [s[0]] + rest[0] + "\n" + JoinLines(rest[1..]);
        }
      }
      assert s == [s[0]] + s[1..];
    }
  }

  predicate NoLineFeeds(ls: seq<string>)
  {
    forall i :: 0 <= i < |ls| ==> '\n' !in ls[i]
  }

  lemma {:induction false} LinesHaveNoLineFeeds(s: string)
    ensures NoLineFeeds(Lines(s))
  {
    if s != "" {
      LinesHaveNoLineFeeds(s[1..]);
    }
  }

  lemma {:induction false} LinesCons(l: string, s: string)
    requires '\n' !in l
    ensures Lines(l + "\n" + s) == [l] + Lines(s)
  {
    var t := l + "\n" + s;
    if l == "" {
      assert t[1..] == s;
    } else {
      LinesCons(l[1..], s);
      assert t[1..] == l[1..] + "\n" + s;
      assert [l[0]] + l[1..] == l;
      assert Lines(t) == [[l[0]] + l[1..]] + ([l[1..]] + Lines(s))[1..];
    }
  }

  lemma {:induction false} LinesSingle(l: string)
    requires '\n' !in l
    ensures Lines(l) == [l]
  {
    if l != "" {
      LinesSingle(l[1..]);
      assert [l[0]] + l[1..] == l;
    }
  }

  /** Splitting a joined text gives the lines back. */
  lemma {:induction false} LinesOfJoinLines(ls: seq<string>)
    requires |ls| >= 1 && NoLineFeeds(ls)
    ensures Lines(JoinLines(ls)) == ls
  {
    if |ls| == 1 {
      LinesSingle(ls[0]);
    } else {
      LinesOfJoinLines(ls[1..]);
      LinesCons(ls[0], JoinLines(ls[1..]));
    }
  }
}
