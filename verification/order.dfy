// The byte-wise order on strings, and the fact that a strictly sorted list is
// determined by its elements.
module Order {

  predicate Less(a: string, b: string)
  {
    if |b| == 0 then false
    else if |a| == 0 then true
    else if a[0] != b[0] then a[0] < b[0]
    else Less(a[1..], b[1..])
  }

  lemma {:induction false} LessIrreflexive(a: string)
    ensures !Less(a, a)
  {
    if |a| > 0 {
      LessIrreflexive(a[1..]);
    }
  }

  lemma {:induction false} LessTotal(a: string, b: string)
    ensures Less(a, b) || Less(b, a) || a == b
  {
    if |a| > 0 && |b| > 0 && a[0] == b[0] {
      LessTotal(a[1..], b[1..]);
      assert a == [a[0]] + a[1..] && b == [b[0]] + b[1..];
    }
  }

  lemma {:induction false} LessTransitive(a: string, b: string, c: string)
    requires Less(a, b) && Less(b, c)
    ensures Less(a, c)
  {
    if |a| > 0 && a[0] == b[0] && b[0] == c[0] {
      LessTransitive(a[1..], b[1..], c[1..]);
    }
  }

  lemma {:induction false} LessAsymmetric(a: string, b: string)
    requires Less(a, b)
    ensures !Less(b, a)
  {
    if Less(b, a) {
      LessTransitive(a, b, a);
      LessIrreflexive(a);
    }
  }

  ghost predicate StrictlySorted(s: seq<string>)
  {
    forall i, j :: 0 <= i < j < |s| ==> Less(s[i], s[j])
  }

  ghost predicate Elements(s: seq<string>, keys: set<string>)
  {
    forall k :: k in s <==> k in keys
  }

  /** Two strictly sorted lists of the same strings are the same list. */
  lemma {:induction false} SortedUnique(s: seq<string>, t: seq<string>, keys: set<string>)
    requires StrictlySorted(s) && StrictlySorted(t) && Elements(s, keys) && Elements(t, keys)
    ensures s == t
    decreases |s|
  {
    assert |t| > 0 ==> t[0] in t;
    if |s| > 0 {
      assert s[0] in s;
      assert s[0] in t;
      FirstIsLeast(s, t);
      FirstIsLeast(t, s);
      LessTotal(s[0], t[0]);
      var rest := keys - {s[0]};
      TailElements(s, keys);
      TailElements(t, keys);
      SortedUnique(s[1..], t[1..], rest);
      assert s == [s[0]] + s[1..] && t == [t[0]] + t[1..];
    }
  }

  lemma FirstIsLeast(s: seq<string>, t: seq<string>)
    requires StrictlySorted(s) && |s| > 0 && |t| > 0 && t[0] in s
    ensures !Less(t[0], s[0])
  {
    var i :| 0 <= i < |s| && s[i] == t[0];
    if i > 0 {
      LessAsymmetric(s[0], s[i]);
    } else {
      LessIrreflexive(s[0]);
    }
  }

  lemma TailElements(s: seq<string>, keys: set<string>)
    requires StrictlySorted(s) && Elements(s, keys) && |s| > 0
    ensures StrictlySorted(s[1..]) && Elements(s[1..], keys - {s[0]})
  {
    forall k
      ensures k in s[1..] <==> k in keys - {s[0]}
    {
      if k in s[1..] {
        var i :| 0 <= i < |s[1..]| && s[1..][i] == k;
        assert s[i + 1] == k && Less(s[0], s[i + 1]);
        LessIrreflexive(k);
        assert k in s;
      }
      if k in keys - {s[0]} {
        assert k in s;
        var i :| 0 <= i < |s| && s[i] == k;
        assert s[1..][i - 1] == k;
      }
    }
  }

  /** `x` put where it belongs in a strictly sorted list. */
  function Insert(x: string, s: seq<string>): seq<string>
  {
    if |s| == 0 || Less(x, s[0]) then [x] + s else [s[0]] + Insert(x, s[1..])
  }

  lemma {:induction false} InsertSorted(x: string, s: seq<string>)
    requires StrictlySorted(s) && x !in s
    ensures StrictlySorted(Insert(x, s))
    ensures forall k :: k in Insert(x, s) <==> k == x || k in s
  {
    if |s| == 0 {
    } else if Less(x, s[0]) {
      forall j | 0 <= j < |s|
        ensures Less(x, s[j])
      {
        if j > 0 {
          LessTransitive(x, s[0], s[j]);
        }
      }
    } else {
      assert s == [s[0]] + s[1..];
      InsertSorted(x, s[1..]);
      LessTotal(x, s[0]);
      var r := Insert(x, s[1..]);
      forall j | 0 <= j < |r|
        ensures Less(s[0], r[j])
      {
        assert r[j] in r;
        if r[j] != x {
          var i :| 0 <= i < |s[1..]| && s[1..][i] == r[j];
          assert s[i + 1] == r[j];
        }
      }
    }
  }

  /** The keys of a Go map, ranged over in any order and then sorted. */
  method SortedKeys(keys: set<string>) returns (headers: seq<string>)
    ensures StrictlySorted(headers) && Elements(headers, keys)
  {
    headers := [];
    var rest := keys;
    while rest != {}
      invariant rest <= keys
      invariant StrictlySorted(headers) && Elements(headers, keys - rest)
      decreases |rest|
    {
      var k :| k in rest;
      InsertSorted(k, headers);
      headers := Insert(k, headers);
      rest := rest - {k};
    }
  }
}
