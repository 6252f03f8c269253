// Longest common subsequences, stated independently of any table, and the two
// recurrences the dashboard's diff engines fill their tables with.
module Lcs {

  // ----- what a common subsequence is --------------------------------------

  /** `at` lists, in increasing order, positions of `s` that spell `c`. */
  ghost predicate Embeds<T(!new)>(c: seq<T>, s: seq<T>, at: seq<int>)
  {
    && |at| == |c|
    && (forall k :: 0 <= k < |at| ==> 0 <= at[k] < |s| && s[at[k]] == c[k])
    && (forall k, l :: 0 <= k < l < |at| ==> at[k] < at[l])
  }

  ghost predicate Subsequence<T(!new)>(c: seq<T>, s: seq<T>)
  {
    exists at :: Embeds(c, s, at)
  }

  ghost predicate Common<T(!new)>(c: seq<T>, a: seq<T>, b: seq<T>)
  {
    Subsequence(c, a) && Subsequence(c, b)
  }

  /** `n` is the greatest length of any common subsequence of `a` and `b`. */
  ghost predicate IsLcsLength<T(!new)>(n: nat, a: seq<T>, b: seq<T>)
  {
    && (exists c :: Common(c, a, b) && |c| == n)
    && (forall c :: Common(c, a, b) ==> |c| <= n)
  }

  // ----- the two recurrences -----------------------------------------------

  function Max(x: nat, y: nat): nat
  {
    if x >= y then x else y
  }

  /** Cell (i, j) of a table filled from the first elements on: the prefixes
      `a[..i]` and `b[..j]`. */
  function Forward<T(==)>(a: seq<T>, b: seq<T>, i: nat, j: nat): nat
    requires i <= |a| && j <= |b|
    decreases i + j
  {
    if i == 0 || j == 0 then 0
    else if a[i - 1] == b[j - 1] then Forward(a, b, i - 1, j - 1) + 1
    else Max(Forward(a, b, i - 1, j), Forward(a, b, i, j - 1))
  }

  /** Cell (i, j) of a table filled from the last elements back: the suffixes
      `a[i..]` and `b[j..]`. */
  function Backward<T(==)>(a: seq<T>, b: seq<T>, i: nat, j: nat): nat
    requires i <= |a| && j <= |b|
    decreases |a| - i + |b| - j
  {
    if i == |a| || j == |b| then 0
    else if a[i] == b[j] then Backward(a, b, i + 1, j + 1) + 1
    else Max(Backward(a, b, i + 1, j), Backward(a, b, i, j + 1))
  }

  // ----- embeddings under the ends of a sequence ---------------------------

  lemma EmbedsAppend<T(!new)>(c: seq<T>, s: seq<T>, at: seq<int>, x: T)
    requires Embeds(c, s, at)
    ensures Embeds(c, s + [x], at)
    ensures Embeds(c + [x], s + [x], at + [|s|])
  {
  }

  lemma EmbedsPrepend<T(!new)>(c: seq<T>, s: seq<T>, at: seq<int>, x: T)
    requires Embeds(c, s, at)
    ensures Embeds(c, [x] + s, seq(|at|, k requires 0 <= k < |at| => at[k] + 1))
    ensures Embeds([x] + c, [x] + s, [0] + seq(|at|, k requires 0 <= k < |at| => at[k] + 1))
  {
  }

  /** A subsequence of `s` that does not use the last element of `s`, or gives up
      its own last element, is one of `s` without its last element. */
  lemma DropLast<T(!new)>(c: seq<T>, s: seq<T>)
    requires Subsequence(c, s) && |s| > 0
    ensures |c| > 0 ==> Subsequence(c[..|c| - 1], s[..|s| - 1])
    ensures |c| == 0 || c[|c| - 1] != s[|s| - 1] ==> Subsequence(c, s[..|s| - 1])
  {
    var at :| Embeds(c, s, at);
    if |c| == 0 {
      assert Embeds(c, s[..|s| - 1], at);
    } else {
      assert forall k :: 0 <= k < |c| - 1 ==> at[k] < at[|c| - 1];
      assert Embeds(c[..|c| - 1], s[..|s| - 1], at[..|c| - 1]);
      if c[|c| - 1] != s[|s| - 1] {
        assert Embeds(c, s[..|s| - 1], at);
      }
    }
  }

  lemma DropFirst<T(!new)>(c: seq<T>, s: seq<T>)
    requires Subsequence(c, s) && |s| > 0
    ensures |c| > 0 ==> Subsequence(c[1..], s[1..])
    ensures |c| == 0 || c[0] != s[0] ==> Subsequence(c, s[1..])
  {
    var at :| Embeds(c, s, at);
    var back := seq(|at|, k requires 0 <= k < |at| => at[k] - 1);
    if |c| == 0 {
      assert Embeds(c, s[1..], back);
    } else {
      assert forall k :: 1 <= k < |c| ==> at[0] < at[k];
      assert Embeds(c[1..], s[1..], back[1..]);
      if c[0] != s[0] {
        assert Embeds(c, s[1..], back);
      }
    }
  }

  lemma SubsequenceNonempty<T(!new)>(c: seq<T>, s: seq<T>)
    requires Subsequence(c, s) && |c| > 0
    ensures |s| > 0
  {
    var at :| Embeds(c, s, at);
    assert 0 <= at[0] < |s|;
  }

  // ----- both recurrences compute the greatest length ----------------------

  lemma {:induction false} ForwardBounds<T(!new)>(c: seq<T>, a: seq<T>, b: seq<T>, i: nat, j: nat)
    requires i <= |a| && j <= |b| && Common(c, a[..i], b[..j])
    ensures |c| <= Forward(a, b, i, j)
    decreases i + j
  {
    if |c| > 0 {
      SubsequenceNonempty(c, a[..i]);
      SubsequenceNonempty(c, b[..j]);
      DropLast(c, a[..i]);
      DropLast(c, b[..j]);
      assert a[..i][..i - 1] == a[..i - 1] && b[..j][..j - 1] == b[..j - 1];
      if a[i - 1] == b[j - 1] {
        ForwardBounds(c[..|c| - 1], a, b, i - 1, j - 1);
      } else if c[|c| - 1] != a[i - 1] {
        ForwardBounds(c, a, b, i - 1, j);
      } else {
        ForwardBounds(c, a, b, i, j - 1);
      }
    }
  }

  lemma {:induction false} BackwardBounds<T(!new)>(c: seq<T>, a: seq<T>, b: seq<T>, i: nat, j: nat)
    requires i <= |a| && j <= |b| && Common(c, a[i..], b[j..])
    ensures |c| <= Backward(a, b, i, j)
    decreases |a| - i + |b| - j
  {
    if |c| > 0 {
      SubsequenceNonempty(c, a[i..]);
      SubsequenceNonempty(c, b[j..]);
      DropFirst(c, a[i..]);
      DropFirst(c, b[j..]);
      assert a[i..][1..] == a[i + 1..] && b[j..][1..] == b[j + 1..];
      if a[i] == b[j] {
        BackwardBounds(c[1..], a, b, i + 1, j + 1);
      } else if c[0] != a[i] {
        BackwardBounds(c, a, b, i + 1, j);
      } else {
        BackwardBounds(c, a, b, i, j + 1);
      }
    }
  }

  lemma {:induction false} ForwardAttained<T(!new)>(a: seq<T>, b: seq<T>, i: nat, j: nat) returns (c: seq<T>)
    requires i <= |a| && j <= |b|
    ensures Common(c, a[..i], b[..j]) && |c| == Forward(a, b, i, j)
    decreases i + j
  {
    if i == 0 || j == 0 {
      c := [];
      assert Embeds(c, a[..i], []) && Embeds(c, b[..j], []);
    } else {
      assert a[..i] == a[..i - 1] + [a[i - 1]] && b[..j] == b[..j - 1] + [b[j - 1]];
      if a[i - 1] == b[j - 1] {
        var c' := ForwardAttained(a, b, i - 1, j - 1);
        var f, g :| Embeds(c', a[..i - 1], f) && Embeds(c', b[..j - 1], g);
        EmbedsAppend(c', a[..i - 1], f, a[i - 1]);
        EmbedsAppend(c', b[..j - 1], g, b[j - 1]);
        c := c' + [a[i - 1]];
      } else if Forward(a, b, i - 1, j) >= Forward(a, b, i, j - 1) {
        c := ForwardAttained(a, b, i - 1, j);
        var f :| Embeds(c, a[..i - 1], f);
        EmbedsAppend(c, a[..i - 1], f, a[i - 1]);
      } else {
        c := ForwardAttained(a, b, i, j - 1);
        var g :| Embeds(c, b[..j - 1], g);
        EmbedsAppend(c, b[..j - 1], g, b[j - 1]);
      }
    }
  }

  lemma {:induction false} BackwardAttained<T(!new)>(a: seq<T>, b: seq<T>, i: nat, j: nat) returns (c: seq<T>)
    requires i <= |a| && j <= |b|
    ensures Common(c, a[i..], b[j..]) && |c| == Backward(a, b, i, j)
    decreases |a| - i + |b| - j
  {
    if i == |a| || j == |b| {
      c := [];
      assert Embeds(c, a[i..], []) && Embeds(c, b[j..], []);
    } else {
      assert a[i..] == [a[i]] + a[i + 1..] && b[j..] == [b[j]] + b[j + 1..];
      if a[i] == b[j] {
        var c' := BackwardAttained(a, b, i + 1, j + 1);
        var f, g :| Embeds(c', a[i + 1..], f) && Embeds(c', b[j + 1..], g);
        EmbedsPrepend(c', a[i + 1..], f, a[i]);
        EmbedsPrepend(c', b[j + 1..], g, b[j]);
        c := [a[i]] + c';
      } else if Backward(a, b, i + 1, j) >= Backward(a, b, i, j + 1) {
        c := BackwardAttained(a, b, i + 1, j);
        SubsequenceOfCons(c, a[i], a[i + 1..]);
      } else {
        c := BackwardAttained(a, b, i, j + 1);
        SubsequenceOfCons(c, b[j], b[j + 1..]);
      }
    }
  }

  /** The two tables carry the same number in their answer cells, and it is the
      greatest length of any common subsequence. */
  lemma {:induction false} TablesAgree<T(!new)>(a: seq<T>, b: seq<T>)
    ensures Forward(a, b, |a|, |b|) == Backward(a, b, 0, 0)
    ensures IsLcsLength(Backward(a, b, 0, 0), a, b)
  {
    assert a[..|a|] == a == a[0..] && b[..|b|] == b == b[0..];
    var c := ForwardAttained(a, b, |a|, |b|);
    var d := BackwardAttained(a, b, 0, 0);
    BackwardBounds(c, a, b, 0, 0);
    ForwardBounds(d, a, b, |a|, |b|);
    forall e | Common(e, a, b)
      ensures |e| <= Backward(a, b, 0, 0)
    {
      BackwardBounds(e, a, b, 0, 0);
    }
  }

  /** Neighbouring cells of a backward table differ by at most one. */
  lemma BackwardSteps<T(!new)>(a: seq<T>, b: seq<T>, i: nat, j: nat)
    requires i <= |a| && j <= |b|
    ensures i < |a| ==> Backward(a, b, i + 1, j) <= Backward(a, b, i, j) <= Backward(a, b, i + 1, j) + 1
    ensures j < |b| ==> Backward(a, b, i, j + 1) <= Backward(a, b, i, j) <= Backward(a, b, i, j + 1) + 1
  {
    var c := BackwardAttained(a, b, i, j);
    if i < |a| {
      assert a[i..] == [a[i]] + a[i + 1..];
      var d := BackwardAttained(a, b, i + 1, j);
      SubsequenceOfCons(d, a[i], a[i + 1..]);
      BackwardBounds(d, a, b, i, j);
      if |c| > 0 {
        DropFirst(c, a[i..]);
        SubsequenceTail(c, b[j..]);
        BackwardBounds(c[1..], a, b, i + 1, j);
      }
    }
    if j < |b| {
      assert b[j..] == [b[j]] + b[j + 1..];
      var d := BackwardAttained(a, b, i, j + 1);
      SubsequenceOfCons(d, b[j], b[j + 1..]);
      BackwardBounds(d, a, b, i, j);
      if |c| > 0 {
        DropFirst(c, b[j..]);
        SubsequenceTail(c, a[i..]);
        BackwardBounds(c[1..], a, b, i, j + 1);
      }
    }
  }

  lemma SubsequenceOfCons<T(!new)>(c: seq<T>, x: T, s: seq<T>)
    requires Subsequence(c, s)
    ensures Subsequence(c, [x] + s)
  {
    var at :| Embeds(c, s, at);
    EmbedsPrepend(c, s, at, x);
  }

  lemma SubsequenceTail<T(!new)>(c: seq<T>, s: seq<T>)
    requires Subsequence(c, s) && |c| > 0
    ensures Subsequence(c[1..], s)
  {
    var at :| Embeds(c, s, at);
    assert Embeds(c[1..], s, at[1..]);
  }
}
