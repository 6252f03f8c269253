// CCR canonicalization of a text: which texts have the same canonical form.
module Canonical {
  import opened Text

  // ----- the chain of rewrites ---------------------------------------------

  function SpaceRun(s: string): (n: nat)
    ensures n <= |s|
  {
    if |s| > 0 && s[0] == ' ' then 1 + SpaceRun(s[1..]) else 0
  }

  /** Every maximal run of two or more spaces replaced by one space. */
  function CollapseRuns(s: string): string
    decreases |s|
  {
    if |s| == 0 then ""
    else if SpaceRun(s) >= 2 then " " + CollapseRuns(s[SpaceRun(s)..])
    else [s[0]] + CollapseRuns(s[1..])
  }

  predicate Trailing(c: char)
  {
    c == ' ' || c == '\t' || c == '\n'
  }

  function TrimRight(s: string): string
  {
    if |s| > 0 && Trailing(s[|s| - 1]) then TrimRight(s[..|s| - 1]) else s
  }

  function CanonicalizeString(s: string): string
  {
    var unix := ReplaceAll(ReplaceAll(s, "\r\n", "\n"), "\r", "\n");
    TrimRight(CollapseRuns(unix))
  }

  // ----- the same rewrites one character at a time --------------------------

  predicate StartsWith(s: string, c: char)
  {
    |s| > 0 && s[0] == c
  }

  predicate EndsWith(s: string, c: char)
  {
    |s| > 0 && s[|s| - 1] == c
  }

  /** A CR before an LF vanishes, any other CR becomes an LF. */
  function UnixUnit(c: char, lfNext: bool): string
  {
    if c != '\r' then [c] else if lfNext then "" else "\n"
  }

  function Unix(s: string): string
  {
    if |s| == 0 then "" else UnixUnit(s[0], StartsWith(s[1..], '\n')) + Unix(s[1..])
  }

  /** A space before a space vanishes. */
  function Squeeze(s: string): string
  {
    if |s| == 0 then ""
    else (if s[0] == ' ' && StartsWith(s[1..], ' ') then "" else [s[0]]) + Squeeze(s[1..])
  }

  lemma StartsWithCrLf(s: string)
    ensures "\r\n" <= s <==> |s| >= 2 && s[0] == '\r' && s[1] == '\n'
  {
    assert "\r\n"[0] == '\r' && "\r\n"[1] == '\n';
  }

  lemma {:induction false} UnixIsReplacement(s: string)
    ensures Unix(s) == ReplaceAll(ReplaceAll(s, "\r\n", "\n"), "\r", "\n")
    decreases |s|
  {
    StartsWithCrLf(s);
    if |s| == 0 {
    } else if "\r\n" <= s {
      hide Unix, ReplaceAll;
      var z := s[2..];
      assert s == "\r\n" + z;
      UnixIsReplacement(z);
      LineEnds(z);
      ReplaceHit("\r\n", z, "\n");
      ReplaceMiss('\n', ReplaceAll(z, "\r\n", "\n"), "\r", "\n");
    } else {
      hide Unix, ReplaceAll;
      var z := s[1..];
      var r := ReplaceAll(z, "\r\n", "\n");
      assert s == [s[0]] + z;
      UnixIsReplacement(z);
      ReplaceMiss(s[0], z, "\r\n", "\n");
      if s[0] == '\r' {
        assert !StartsWith(z, '\n') && "\r" + z == s && "\r" + r == [s[0]] + r;
        LineEnds(z);
        ReplaceHit("\r", r, "\n");
      } else {
        UnixPasses(s[0], z);
        assert ([s[0]] + r)[0] != "\r"[0];
        ReplaceMiss(s[0], r, "\r", "\n");
      }
    }
  }

  lemma {:induction false} SqueezeIsCollapse(s: string)
    ensures Squeeze(s) == CollapseRuns(s)
    decreases |s|
  {
    if |s| > 0 {
      SqueezeIsCollapse(s[1..]);
      if SpaceRun(s) >= 2 {
        assert s[1..][SpaceRun(s) - 1..] == s[SpaceRun(s)..];
        if SpaceRun(s[1..]) == 1 {
          assert s[1..][1..] == s[2..];
        }
      }
    }
  }

  lemma CanonicalChain(s: string)
    ensures CanonicalizeString(s) == TrimRight(Squeeze(Unix(s)))
  {
    UnixIsReplacement(s);
    SqueezeIsCollapse(Unix(s));
  }

  // ----- canonical texts are the fixed points ------------------------------

  /** No CR, no two spaces in a row, nothing to trim. */
  predicate IsCanonical(s: string)
  {
    && (forall i :: 0 <= i < |s| ==> s[i] != '\r')
    && (forall i :: 0 < i < |s| ==> !(s[i - 1] == ' ' && s[i] == ' '))
    && (|s| > 0 ==> s[|s| - 1] != ' ' && s[|s| - 1] != '\t' && s[|s| - 1] != '\n')
  }

  lemma {:induction false} UnixHasNoCr(s: string)
    ensures forall i :: 0 <= i < |Unix(s)| ==> Unix(s)[i] != '\r'
    ensures (forall i :: 0 <= i < |s| ==> s[i] != '\r') ==> Unix(s) == s
  {
    if |s| > 0 {
      UnixHasNoCr(s[1..]);
    }
  }

  lemma {:induction false} SqueezeHasNoRun(s: string)
    ensures forall i :: 0 <= i < |Squeeze(s)| ==> Squeeze(s)[i] in s
    ensures |Squeeze(s)| > 0 <==> |s| > 0
    ensures |s| > 0 ==> Squeeze(s)[0] == s[0]
    ensures forall i :: 0 < i < |Squeeze(s)| ==> !(Squeeze(s)[i - 1] == ' ' && Squeeze(s)[i] == ' ')
    ensures (forall i :: 0 < i < |s| ==> !(s[i - 1] == ' ' && s[i] == ' ')) ==> Squeeze(s) == s
  {
    if |s| > 0 {
      SqueezeHasNoRun(s[1..]);
    }
  }

  lemma {:induction false} TrimRightIsPrefix(s: string)
    ensures TrimRight(s) <= s
    ensures |TrimRight(s)| > 0 ==> !Trailing(TrimRight(s)[|TrimRight(s)| - 1])
    ensures forall i :: |TrimRight(s)| <= i < |s| ==> Trailing(s[i])
  {
    if |s| > 0 && Trailing(s[|s| - 1]) {
      TrimRightIsPrefix(s[..|s| - 1]);
    }
  }

  lemma ResultIsCanonical(s: string)
    ensures IsCanonical(CanonicalizeString(s))
  {
    CanonicalChain(s);
    UnixHasNoCr(s);
    SqueezeHasNoRun(Unix(s));
    TrimRightIsPrefix(Squeeze(Unix(s)));
    hide CanonicalizeString, Unix, Squeeze, TrimRight;
    var unix, squeezed, trimmed := Unix(s), Squeeze(Unix(s)), TrimRight(Squeeze(Unix(s)));
    assert forall i :: 0 <= i < |trimmed| ==> trimmed[i] == squeezed[i];
    assert forall i :: 0 <= i < |trimmed| ==> trimmed[i] in unix;
  }

  /** A text is left alone exactly when it is canonical; so canonicalizing twice is
      canonicalizing once. */
  lemma FixedPoints(s: string)
    ensures CanonicalizeString(s) == s <==> IsCanonical(s)
    ensures CanonicalizeString(CanonicalizeString(s)) == CanonicalizeString(s)
  {
    ResultIsCanonical(s);
    CanonicalIsFixed(CanonicalizeString(s));
    if IsCanonical(s) {
      CanonicalIsFixed(s);
    }
  }

  lemma CanonicalIsFixed(s: string)
    requires IsCanonical(s)
    ensures CanonicalizeString(s) == s
  {
    CanonicalChain(s);
    UnixHasNoCr(s);
    SqueezeHasNoRun(s);
  }

  // ----- the edits that do not change the key ------------------------------

  datatype Edit =
    | CrLfToLf(x: string, y: string)
    | CrToLf(x: string, y: string)
    | DoubledSpace(x: string, y: string)
    | TrailingBlank(x: string, w: char)

  predicate Legal(e: Edit)
  {
    match e
    case CrLfToLf(x, _) => !EndsWith(x, '\r')
    case CrToLf(x, y) => !EndsWith(x, '\r') && !StartsWith(y, '\n')
    case DoubledSpace(_, _) => true
    case TrailingBlank(_, w) => w == ' ' || w == '\t' || w == '\n'
  }

  function Before(e: Edit): string
  {
    match e
    case CrLfToLf(x, y) => x + ("\r\n" + y)
    case CrToLf(x, y) => x + ("\r" + y)
    case DoubledSpace(x, y) => x + ("  " + y)
    case TrailingBlank(x, w) => x + [w]
  }

  function After(e: Edit): string
  {
    match e
    case CrLfToLf(x, y) => x + ("\n" + y)
    case CrToLf(x, y) => x + ("\n" + y)
    case DoubledSpace(x, y) => x + (" " + y)
    case TrailingBlank(x, _) => x
  }

  /** What `Unix` makes of `x` when an LF does or does not follow it. */
  function UnixBefore(x: string, lf: bool): string
  {
    if |x| == 0 then ""
    else
      UnixUnit(x[0], if |x| > 1 then x[1] == '\n' else lf) + UnixBefore(x[1..], lf)
  }

  lemma ConcatAssociative(a: string, b: string, c: string, whole: string)
    requires whole == a + (b + c)
    ensures whole == (a + b) + c
  {
  }

  lemma {:induction false} UnixSplit(x: string, z: string)
    ensures Unix(x + z) == UnixBefore(x, StartsWith(z, '\n')) + Unix(z)
  {
    hide UnixUnit;
    if |x| == 0 {
      assert x + z == z;
    } else {
      UnixSplit(x[1..], z);
      assert (x + z)[1..] == x[1..] + z;
      ConcatAssociative(UnixUnit(x[0], StartsWith(x[1..] + z, '\n')), UnixBefore(x[1..], StartsWith(z, '\n')),
                        Unix(z), Unix(x + z));
    }
  }

  lemma {:induction false} UnixBeforeInsensitive(x: string)
    ensures !EndsWith(x, '\r') ==> UnixBefore(x, true) == UnixBefore(x, false)
    ensures EndsWith(x, '\r') ==> UnixBefore(x, true) + "\n" == UnixBefore(x, false)
  {
    if |x| > 0 {
      UnixBeforeInsensitive(x[1..]);
      if |x| == 1 {
        assert x[1..] == "";
      }
    }
  }

  lemma {:induction false} SqueezeContext(x: string, s: string, t: string)
    requires Squeeze(s) == Squeeze(t) && |s| > 0 && |t| > 0 && s[0] == t[0]
    ensures Squeeze(x + s) == Squeeze(x + t)
  {
    if |x| == 0 {
      assert x + s == s && x + t == t;
    } else {
      SqueezeContext(x[1..], s, t);
      assert (x + s)[1..] == x[1..] + s && (x + t)[1..] == x[1..] + t;
    }
  }

  lemma SqueezeUnfold(s: string)
    requires |s| > 0
    ensures Squeeze(s) == if s[0] == ' ' && StartsWith(s[1..], ' ') then Squeeze(s[1..]) else [s[0]] + Squeeze(s[1..])
    ensures Squeeze("") == "" && Squeeze([s[0]]) == [s[0]]
  {
    assert "" + Squeeze(s[1..]) == Squeeze(s[1..]);
    assert [s[0]][1..] == "";
    assert [s[0]] + "" == [s[0]];
  }

  lemma {:induction false} SqueezePush(u: string, w: char)
    ensures Squeeze(u + [w]) == if w == ' ' && EndsWith(u, ' ') then Squeeze(u) else Squeeze(u) + [w]
  {
    hide Squeeze;
    SqueezeUnfold([w]);
    if |u| == 0 {
      assert u + [w] == [w] && u == "" && "" + [w] == [w];
    } else {
      SqueezePush(u[1..], w);
      SqueezeUnfold(u);
      SqueezeUnfold(u + [w]);
      assert (u + [w])[1..] == u[1..] + [w];
      if |u| == 1 {
        assert u[1..] == "" && "" + [w] == [w] && u == [u[0]];
      } else {
        assert (u[1..] + [w])[0] == u[1..][0];
        assert EndsWith(u[1..], ' ') == EndsWith(u, ' ');
        ConcatAssociative([u[0]], Squeeze(u[1..]), [w], [u[0]] + (Squeeze(u[1..]) + [w]));
      }
    }
  }

  lemma TrimRightPush(u: string, w: char)
    requires Trailing(w)
    ensures TrimRight(u + [w]) == TrimRight(u)
  {
    assert (u + [w])[..|u|] == u;
  }

  /** Two line ends with the same image after an `x` that does not end in CR. */
  lemma {:induction false} LineEndKey(x: string, s: string, t: string)
    requires Unix(s) == Unix(t) && !EndsWith(x, '\r')
    ensures Unix(x + s) == Unix(x + t)
  {
    UnixSplit(x, s);
    UnixSplit(x, t);
    UnixBeforeInsensitive(x);
  }

  lemma LineEnds(y: string)
    ensures Unix("\n" + y) == "\n" + Unix(y)
    ensures Unix("\r\n" + y) == Unix("\n" + y)
    ensures !StartsWith(y, '\n') ==> Unix("\r" + y) == Unix("\n" + y)
  {
    assert ("\r\n" + y)[1..] == "\n" + y && ("\n" + y)[1..] == y && ("\r" + y)[1..] == y;
  }

  lemma DoubledSpaceKey(x: string, y: string)
    ensures Squeeze(Unix(x + ("  " + y))) == Squeeze(Unix(x + (" " + y)))
  {
    var one, two := " " + y, "  " + y;
    assert !StartsWith(one, '\n') && !StartsWith(two, '\n');
    hide *;
    var u := Unix(y);
    assert [' '] + one == two && [' '] + y == one;
    UnixSplit(x, two);
    UnixSplit(x, one);
    UnixPasses(' ', y);
    UnixPasses(' ', one);
    DoubledSpaceSqueezed(UnixBefore(x, false), u, Unix(one), Unix(two));
  }

  lemma DoubledSpaceSqueezed(x: string, u: string, one: string, two: string)
    requires one == [' '] + u && two == [' '] + one
    ensures Squeeze(x + two) == Squeeze(x + one)
  {
    SqueezeUnfold(two);
    assert two[1..] == one;
    SqueezeContext(x, two, one);
  }

  lemma UnixPasses(c: char, y: string)
    requires c != '\r'
    ensures Unix([c] + y) == [c] + Unix(y)
  {
    assert ([c] + y)[1..] == y;
  }

  lemma UnixPush(x: string, w: char)
    requires Trailing(w)
    ensures Unix(x + [w]) == Unix(x) || Unix(x + [w]) == Unix(x) + [w]
  {
    UnixSplit(x, [w]);
    UnixSplit(x, "");
    UnixBeforeInsensitive(x);
    assert x + "" == x && [w][1..] == "";
    assert Unix([w]) == [w];
  }

  lemma TrailingBlankKey(x: string, w: char)
    requires Trailing(w)
    ensures TrimRight(Squeeze(Unix(x + [w]))) == TrimRight(Squeeze(Unix(x)))
  {
    UnixPush(x, w);
    SqueezePush(Unix(x), w);
    TrimRightPush(Squeeze(Unix(x)), w);
  }

  /** Undoing CRs, doubled spaces and trailing blanks never changes the key. */
  lemma EditPreservesKey(e: Edit)
    requires Legal(e)
    ensures CanonicalizeString(Before(e)) == CanonicalizeString(After(e))
  {
    hide CanonicalizeString, Unix, Squeeze, TrimRight;
    CanonicalChain(Before(e));
    CanonicalChain(After(e));
    match e
    case CrLfToLf(x, y) =>
      LineEnds(y);
      LineEndKey(x, "\r\n" + y, "\n" + y);
    case CrToLf(x, y) =>
      LineEnds(y);
      LineEndKey(x, "\r" + y, "\n" + y);
    case DoubledSpace(x, y) =>
      DoubledSpaceKey(x, y);
    case TrailingBlank(x, w) =>
      TrailingBlankKey(x, w);
  }

  // ----- and they are the only ones ----------------------------------------

  ghost predicate OneEdit(s: string, t: string)
  {
    exists e :: Legal(e) && Before(e) == s && After(e) == t
  }

  ghost predicate Path(p: seq<string>)
  {
    forall i :: 0 < i < |p| ==> OneEdit(p[i - 1], p[i]) || OneEdit(p[i], p[i - 1])
  }

  /** Some chain of edits, done or undone, leads from `s` to `t`. */
  ghost predicate Linked(s: string, t: string)
  {
    exists p :: |p| > 0 && p[0] == s && p[|p| - 1] == t && Path(p)
  }

  lemma LinkedByEdit(e: Edit)
    requires Legal(e)
    ensures Linked(Before(e), After(e))
  {
    var p := [Before(e), After(e)];
    assert OneEdit(p[0], p[1]);
    assert Path(p);
  }

  lemma LinkedReflexive(s: string)
    ensures Linked(s, s)
  {
    assert Path([s]);
  }

  lemma LinkedTransitive(s: string, t: string, u: string)
    requires Linked(s, t) && Linked(t, u)
    ensures Linked(s, u)
  {
    var p :| |p| > 0 && p[0] == s && p[|p| - 1] == t && Path(p);
    var q :| |q| > 0 && q[0] == t && q[|q| - 1] == u && Path(q);
    var r := p + q[1..];
    forall i | 0 < i < |r|
      ensures OneEdit(r[i - 1], r[i]) || OneEdit(r[i], r[i - 1])
    {
      if i < |p| {
        assert r[i - 1] == p[i - 1] && r[i] == p[i];
      } else {
        assert r[i] == q[i - |p| + 1] && r[i - 1] == q[i - |p|];
      }
    }
    assert Path(r);
  }

  lemma LinkedSymmetric(s: string, t: string)
    requires Linked(s, t)
    ensures Linked(t, s)
  {
    var p :| |p| > 0 && p[0] == s && p[|p| - 1] == t && Path(p);
    var r := seq(|p|, i requires 0 <= i < |p| => p[|p| - 1 - i]);
    forall i | 0 < i < |r|
      ensures OneEdit(r[i - 1], r[i]) || OneEdit(r[i], r[i - 1])
    {
      assert r[i - 1] == p[|p| - i] && r[i] == p[|p| - i - 1];
    }
    assert Path(r);
  }

  lemma {:induction false} PathKeepsKey(p: seq<string>)
    requires |p| > 0 && Path(p)
    ensures CanonicalizeString(p[0]) == CanonicalizeString(p[|p| - 1])
  {
    if |p| > 1 {
      assert Path(p[1..]) by {
        forall i | 0 < i < |p[1..]|
          ensures OneEdit(p[1..][i - 1], p[1..][i]) || OneEdit(p[1..][i], p[1..][i - 1])
        {
          assert p[1..][i - 1] == p[i] && p[1..][i] == p[i + 1];
          assert OneEdit(p[i + 1 - 1], p[i + 1]) || OneEdit(p[i + 1], p[i + 1 - 1]);
        }
      }
      PathKeepsKey(p[1..]);
      assert OneEdit(p[1 - 1], p[1]) || OneEdit(p[1], p[1 - 1]);
      if OneEdit(p[0], p[1]) {
        var e :| Legal(e) && Before(e) == p[0] && After(e) == p[1];
        EditPreservesKey(e);
      } else {
        var e :| Legal(e) && Before(e) == p[1] && After(e) == p[0];
        EditPreservesKey(e);
      }
    }
  }

  lemma LinkedLineEnd(x: string, y: string)
    requires !EndsWith(x, '\r')
    ensures Linked(x + ("\r\n" + y), x + "\n" + y)
    ensures !StartsWith(y, '\n') ==> Linked(x + ("\r" + y), x + "\n" + y)
  {
    assert x + ("\n" + y) == x + "\n" + y;
    LinkedByEdit(CrLfToLf(x, y));
    if !StartsWith(y, '\n') {
      LinkedByEdit(CrToLf(x, y));
    }
  }

  lemma UnixOfLineEnd(s: string)
    requires |s| > 0 && s[0] == '\r'
    ensures StartsWith(s[1..], '\n') ==> s == "\r\n" + s[2..] && Unix(s) == "\n" + Unix(s[2..])
    ensures !StartsWith(s[1..], '\n') ==> s == "\r" + s[1..] && Unix(s) == "\n" + Unix(s[1..])
  {
    if StartsWith(s[1..], '\n') {
      LineEnds(s[2..]);
      assert s == "\r\n" + s[2..];
    } else {
      LineEnds(s[1..]);
      assert s == "\r" + s[1..];
    }
  }

  lemma UnixOfPlain(s: string)
    requires |s| > 0 && s[0] != '\r'
    ensures Unix(s) == [s[0]] + Unix(s[1..])
  {
  }

  /** Moving the first character of `s` behind `x`. */
  lemma Moved(x: string, c: char, t: string, s: string)
    requires s == [c] + t
    ensures x + [c] + t == x + s
  {
  }

  lemma {:induction false} LinkedToUnix(x: string, s: string, u: string)
    requires forall i :: 0 <= i < |x| ==> x[i] != '\r'
    requires u == Unix(s)
    ensures Linked(x + s, x + u)
    decreases |s|
  {
    assert |s| == 0 ==> u == s;
    hide Linked, Unix;
    if |s| == 0 {
      LinkedReflexive(x + s);
    } else if s[0] != '\r' {
      UnixOfPlain(s);
      var v := Unix(s[1..]);
      LinkedToUnix(x + [s[0]], s[1..], v);
      Moved(x, s[0], s[1..], s);
      Moved(x, s[0], v, u);
    } else {
      var y := if StartsWith(s[1..], '\n') then s[2..] else s[1..];
      var v := Unix(y);
      UnixOfLineEnd(s);
      LinkedLineEnd(x, y);
      LinkedToUnix(x + "\n", y, v);
      Moved(x, '\n', v, u);
      LinkedTransitive(x + s, x + "\n" + y, x + u);
    }
  }

  lemma LinkedDoubledSpace(x: string, s: string)
    requires |s| > 0 && s[0] == ' ' && StartsWith(s[1..], ' ')
    ensures Linked(x + s, x + s[1..])
  {
    hide Linked;
    var y := s[2..];
    LinkedByEdit(DoubledSpace(x, y));
    assert "  " + y == s && " " + y == s[1..];
  }

  lemma {:induction false} LinkedToSqueeze(x: string, s: string, u: string)
    requires u == Squeeze(s)
    ensures Linked(x + s, x + u)
    decreases |s|
  {
    assert |s| == 0 ==> u == s;
    hide Linked, Squeeze;
    if |s| == 0 {
      LinkedReflexive(x + s);
    } else {
      SqueezeUnfold(s);
      var v := Squeeze(s[1..]);
      if s[0] == ' ' && StartsWith(s[1..], ' ') {
        LinkedDoubledSpace(x, s);
        LinkedToSqueeze(x, s[1..], v);
        LinkedTransitive(x + s, x + s[1..], x + u);
      } else {
        LinkedToSqueeze(x + [s[0]], s[1..], v);
        Moved(x, s[0], s[1..], s);
        Moved(x, s[0], v, u);
      }
    }
  }

  lemma {:induction false} LinkedToTrimmed(s: string)
    ensures Linked(s, TrimRight(s))
  {
    if |s| > 0 && Trailing(s[|s| - 1]) {
      var x, w := s[..|s| - 1], s[|s| - 1];
      LinkedToTrimmed(x);
      LinkedByEdit(TrailingBlank(x, w));
      assert x + [w] == s;
      LinkedTransitive(s, x, TrimRight(s));
    } else {
      LinkedReflexive(s);
    }
  }

  lemma LinkedToCanonical(s: string)
    ensures Linked(s, CanonicalizeString(s))
  {
    CanonicalChain(s);
    LinkedToUnix("", s, Unix(s));
    LinkedToSqueeze("", Unix(s), Squeeze(Unix(s)));
    LinkedToTrimmed(Squeeze(Unix(s)));
    assert "" + s == s && "" + Unix(s) == Unix(s) && "" + Squeeze(Unix(s)) == Squeeze(Unix(s));
    LinkedTransitive(s, Unix(s), Squeeze(Unix(s)));
    LinkedTransitive(s, Squeeze(Unix(s)), CanonicalizeString(s));
  }

  /** Two contents canonicalize to the same text exactly when a chain of the four
      whitespace edits links them. */
  lemma SameKeyIffLinked(s: string, t: string)
    ensures CanonicalizeString(s) == CanonicalizeString(t) <==> Linked(s, t)
  {
    if Linked(s, t) {
      var p :| |p| > 0 && p[0] == s && p[|p| - 1] == t && Path(p);
      PathKeepsKey(p);
    }
    if CanonicalizeString(s) == CanonicalizeString(t) {
      LinkedToCanonical(s);
      LinkedToCanonical(t);
      LinkedSymmetric(t, CanonicalizeString(t));
      LinkedTransitive(s, CanonicalizeString(s), t);
    }
  }

  // ----- blank texts ----------------------------------------------------

  /** Unicode white space: at least what the canonicalizer touches, and no backslash. */
  predicate IsSpaceClass(space: char -> bool)
  {
    space(' ') && space('\t') && space('\n') && space('\r') && !space('\\')
  }

  /** What `strings.TrimSpace(s) == ""` tests. */
  predicate Blank(s: string, space: char -> bool)
  {
    forall i :: 0 <= i < |s| ==> space(s[i])
  }

  lemma BlankConcat(a: string, b: string, space: char -> bool)
    ensures Blank(a + b, space) <==> Blank(a, space) && Blank(b, space)
  {
    assert forall i :: 0 <= i < |b| ==> b[i] == (a + b)[|a| + i];
    assert forall i :: 0 <= i < |a| ==> a[i] == (a + b)[i];
  }

  lemma {:induction false} UnixKeepsBlankness(s: string, space: char -> bool)
    requires IsSpaceClass(space)
    ensures Blank(Unix(s), space) <==> Blank(s, space)
  {
    if |s| > 0 {
      UnixKeepsBlankness(s[1..], space);
      BlankConcat([s[0]], s[1..], space);
      BlankConcat(UnixUnit(s[0], StartsWith(s[1..], '\n')), Unix(s[1..]), space);
      assert s == [s[0]] + s[1..];
    }
  }

  lemma {:induction false} SqueezeKeepsBlankness(s: string, space: char -> bool)
    requires IsSpaceClass(space)
    ensures Blank(Squeeze(s), space) <==> Blank(s, space)
  {
    if |s| > 0 {
      SqueezeKeepsBlankness(s[1..], space);
      BlankConcat([s[0]], s[1..], space);
      BlankConcat(if s[0] == ' ' && StartsWith(s[1..], ' ') then "" else [s[0]], Squeeze(s[1..]), space);
      assert s == [s[0]] + s[1..];
    }
  }

  lemma CanonicalKeepsBlankness(s: string, space: char -> bool)
    requires IsSpaceClass(space)
    ensures Blank(CanonicalizeString(s), space) <==> Blank(s, space)
  {
    CanonicalChain(s);
    UnixKeepsBlankness(s, space);
    SqueezeKeepsBlankness(Unix(s), space);
    TrimRightIsPrefix(Squeeze(Unix(s)));
  }
}
