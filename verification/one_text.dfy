// When the bytes of a content literal in the cache key stand for one text only: exactly
// when they are not what json.Marshal writes for a text that spells out a \uXXXX.  The
// decoder leaves \uXXXX as it is, so a literal that has one and a literal that spells
// it out decode to the same text and may be written anew alike.
module OneText {
  import opened Text
  import opened JsonScan
  import opened ToolMessages
  import opened SystemContent
  import opened JsonText
  import opened CanonicalLiterals
  import Canonical

  // ----- what white-space edits cannot touch -------------------------------

  predicate EscapeAt(s: string, i: int)
  {
    && 0 <= i && i + 6 <= |s| && s[i] == '\\' && s[i + 1] == 'u'
    && forall j :: i + 2 <= j < i + 6 ==> HexDigit(s[j])
  }

  /** A backslash, a u and four hexadecimal digits stand somewhere in the text. */
  predicate SaysEscape(s: string)
  {
    exists i :: 0 <= i < |s| && EscapeAt(s, i)
  }

  predicate Gap(w: string)
  {
    forall i :: 0 <= i < |w| ==> w[i] in " \t\n\r"
  }

  /** The number of code units that are not blank. */
  function Solid(us: seq<int>): nat
  {
    if |us| == 0 then 0 else (if us[0] in {9, 10, 13, 32} then 0 else 1) + Solid(us[1..])
  }

  lemma {:induction false} SolidConcat(a: seq<int>, b: seq<int>)
    ensures Solid(a + b) == Solid(a) + Solid(b)
  {
    if |a| == 0 {
      assert a + b == b;
    } else {
      SolidConcat(a[1..], b);
      assert (a + b)[1..] == a[1..] + b;
    }
  }

  lemma {:induction false} GapIsNotSolid(w: string)
    requires Gap(w)
    ensures Solid(UnitsOf(w)) == 0
  {
    if |w| > 0 {
      assert Gap(w[1..]) by {
        assert forall i :: 0 <= i < |w| - 1 ==> w[1..][i] == w[i + 1];
      }
      GapIsNotSolid(w[1..]);
      SolidConcat(Units(w[0]), UnitsOf(w[1..]));
      assert w[0] in " \t\n\r" && Units(w[0]) == [w[0] as int];
      assert Solid([w[0] as int]) == 0 by { assert [w[0] as int][1..] == []; }
    }
  }

  lemma EscapedIsSolid(s: string, i: int, j: int)
    requires EscapeAt(s, i) && i <= j < i + 6
    ensures s[j] !in " \t\n\r"
  {
    assert s[j] == '\\' || s[j] == 'u' || HexDigit(s[j]);
  }

  /** No escape straddles a gap. */
  lemma EscapeBesideGap(x: string, w: string, y: string, i: int)
    requires Gap(w) && (|w| > 0 || y == "") && EscapeAt(x + (w + y), i)
    ensures EscapeAt(x, i) || EscapeAt(y, i - |x| - |w|)
  {
    var s := x + (w + y);
    var n := |x| + |w|;
    assert forall j :: 0 <= j < |x| ==> s[j] == x[j];
    assert forall j :: |x| <= j < n ==> s[j] == w[j - |x|];
    assert forall j :: n <= j < |s| ==> s[j] == y[j - n];
    if i + 6 <= |x| {
    } else if i >= n {
      assert s[i] == y[i - n] && s[i + 1] == y[i + 1 - n];
      assert forall j :: i + 2 <= j < i + 6 ==> y[j - n] == s[j];
      forall j | i - n + 2 <= j < i - n + 6
        ensures HexDigit(y[j])
      {
        assert s[j + n] == y[j];
      }
    } else {
      var j := if i > |x| then i else |x|;
      assert i <= j < i + 6 && |x| <= j < n;
      EscapedIsSolid(s, i, j);
      assert false;
    }
  }

  lemma EscapeMoves(x: string, z: string, i: int)
    ensures EscapeAt(x, i) ==> EscapeAt(x + z, i)
    ensures EscapeAt(z, i) ==> EscapeAt(x + z, |x| + i)
  {
    assert forall j :: 0 <= j < |x| ==> (x + z)[j] == x[j];
    assert forall j :: 0 <= j < |z| ==> (x + z)[|x| + j] == z[j];
    if EscapeAt(z, i) {
      assert (x + z)[|x| + i] == z[i] && (x + z)[|x| + i + 1] == z[i + 1];
      forall j | |x| + i + 2 <= j < |x| + i + 6
        ensures HexDigit((x + z)[j])
      {
        assert (x + z)[j] == z[j - |x|];
      }
    }
  }

  lemma SaysEscapeConcat(x: string, z: string)
    ensures SaysEscape(x) || SaysEscape(z) ==> SaysEscape(x + z)
  {
    hide EscapeAt;
    if SaysEscape(x) {
      var i :| 0 <= i < |x| && EscapeAt(x, i);
      EscapeMoves(x, z, i);
    } else if SaysEscape(z) {
      var i :| 0 <= i < |z| && EscapeAt(z, i);
      EscapeMoves(x, z, i);
    }
  }

  lemma EscapeInBounds(s: string, i: int)
    requires EscapeAt(s, i)
    ensures SaysEscape(s)
  {
  }

  /** What a gap between two texts leaves as it is, whatever the gap. */
  lemma GapShowsNothing(x: string, w: string, y: string)
    requires Gap(w) && (|w| > 0 || y == "")
    ensures SaysEscape(x + (w + y)) <==> SaysEscape(x) || SaysEscape(y)
    ensures Solid(UnitsOf(x + (w + y))) == Solid(UnitsOf(x)) + Solid(UnitsOf(y))
    ensures AllShort(x + (w + y)) <==> AllShort(x) && AllShort(y)
  {
    GapEscapes(x, w, y);
    GapSolid(x, w, y);
    GapShort(x, w, y);
  }

  lemma GapEscapes(x: string, w: string, y: string)
    requires Gap(w) && (|w| > 0 || y == "")
    ensures SaysEscape(x + (w + y)) <==> SaysEscape(x) || SaysEscape(y)
  {
    hide EscapeAt, Gap;
    SaysEscapeConcat(w, y);
    SaysEscapeConcat(x, w + y);
    if SaysEscape(x + (w + y)) {
      var i :| 0 <= i < |x + (w + y)| && EscapeAt(x + (w + y), i);
      EscapeBesideGap(x, w, y, i);
      if EscapeAt(x, i) {
        EscapeInBounds(x, i);
      } else {
        EscapeInBounds(y, i - |x| - |w|);
      }
    }
  }

  lemma GapSolid(x: string, w: string, y: string)
    requires Gap(w)
    ensures Solid(UnitsOf(x + (w + y))) == Solid(UnitsOf(x)) + Solid(UnitsOf(y))
  {
    UnitsConcat(x, w + y);
    UnitsConcat(w, y);
    SolidConcat(UnitsOf(x), UnitsOf(w + y));
    SolidConcat(UnitsOf(w), UnitsOf(y));
    GapIsNotSolid(w);
  }

  lemma GapShort(x: string, w: string, y: string)
    requires Gap(w)
    ensures AllShort(x + (w + y)) <==> AllShort(x) && AllShort(y)
  {
    assert forall i :: 0 <= i < |w| ==> ShortEscape(w[i]);
    ShortConcat(x, w + y);
    ShortConcat(w, y);
  }

  lemma ShortConcat(x: string, y: string)
    ensures AllShort(x + y) <==> AllShort(x) && AllShort(y)
  {
    assert forall i :: 0 <= i < |x| ==> (x + y)[i] == x[i];
    assert forall i :: 0 <= i < |y| ==> (x + y)[|x| + i] == y[i];
  }

  /** The two texts spell out escapes alike, have as many units that are not blank, and
      are alike in their control characters. */
  ghost predicate Kin(s: string, t: string)
  {
    && (SaysEscape(s) <==> SaysEscape(t))
    && (AllShort(s) <==> AllShort(t))
    && Solid(UnitsOf(s)) == Solid(UnitsOf(t))
  }

  /** Each edit changes the gap between two texts. */
  lemma EditIsAGap(e: Canonical.Edit) returns (x: string, v: string, w: string, y: string)
    requires Canonical.Legal(e)
    ensures Canonical.Before(e) == x + (v + y) && Canonical.After(e) == x + (w + y)
    ensures Gap(v) && Gap(w) && (y == "" || (|v| > 0 && |w| > 0))
  {
    match e
    case CrLfToLf(a, b) => x, v, w, y := a, "\r\n", "\n", b;
    case CrToLf(a, b) => x, v, w, y := a, "\r", "\n", b;
    case DoubledSpace(a, b) => x, v, w, y := a, "  ", " ", b;
    case TrailingBlank(a, c) => x, v, w, y := a, [c], "", "";
      assert [c] + "" == [c] && a + ("" + "") == a;
  }

  lemma EditKeepsKin(e: Canonical.Edit)
    requires Canonical.Legal(e)
    ensures Kin(Canonical.Before(e), Canonical.After(e))
  {
    var x, v, w, y := EditIsAGap(e);
    hide Gap, SaysEscape, AllShort, Solid, UnitsOf, Canonical.Before, Canonical.After;
    GapShowsNothing(x, v, y);
    GapShowsNothing(x, w, y);
  }

  lemma OneEditKeepsKin(s: string, t: string)
    requires Canonical.OneEdit(s, t) || Canonical.OneEdit(t, s)
    ensures Kin(s, t)
  {
    hide Canonical.Legal, SaysEscape, AllShort, Solid, UnitsOf, Canonical.Before, Canonical.After;
    if Canonical.OneEdit(s, t) {
      var e :| Canonical.Legal(e) && Canonical.Before(e) == s && Canonical.After(e) == t;
      EditKeepsKin(e);
    } else {
      var e :| Canonical.Legal(e) && Canonical.Before(e) == t && Canonical.After(e) == s;
      EditKeepsKin(e);
    }
  }

  lemma {:induction false} PathKeepsKin(p: seq<string>)
    requires |p| > 0 && Canonical.Path(p)
    ensures Kin(p[0], p[|p| - 1])
  {
    hide Canonical.OneEdit, SaysEscape, AllShort, Solid, UnitsOf;
    if |p| > 1 {
      var init := p[..|p| - 1];
      assert forall i :: 0 <= i < |init| ==> init[i] == p[i];
      assert Canonical.Path(init);
      PathKeepsKin(init);
      var i := |p| - 1;
      assert Canonical.OneEdit(p[i - 1], p[i]) || Canonical.OneEdit(p[i], p[i - 1]);
      OneEditKeepsKin(p[i - 1], p[i]);
    }
  }

  lemma LinkedAreKin(s: string, t: string)
    requires Canonical.Linked(s, t)
    ensures Kin(s, t)
  {
    hide Kin, Canonical.Path;
    var p :| |p| > 0 && p[0] == s && p[|p| - 1] == t && Canonical.Path(p);
    PathKeepsKin(p);
  }

  // ----- reading alike -----------------------------------------------------

  /** The literals denote the same text, or texts linked by white-space edits. */
  ghost predicate ReadsAlike(a: Literal, b: Literal)
  {
    Denoted(a) == Denoted(b) || LinkedTexts(Denoted(a), Denoted(b))
  }

  ghost predicate LinkedTexts(us: seq<int>, vs: seq<int>)
  {
    exists s, t :: us == UnitsOf(s) && vs == UnitsOf(t) && Canonical.Linked(s, t)
  }

  lemma AlikeIsAsSolid(a: Literal, b: Literal)
    requires ReadsAlike(a, b)
    ensures Solid(Denoted(a)) == Solid(Denoted(b))
  {
    hide Canonical.Linked, Denoted, Solid, UnitsOf, SaysEscape, AllShort;
    if Denoted(a) != Denoted(b) {
      var s, t :| Denoted(a) == UnitsOf(s) && Denoted(b) == UnitsOf(t) && Canonical.Linked(s, t);
      LinkedAreKin(s, t);
    }
  }

  // ----- literals and the texts they decode to -----------------------------

  lemma {:induction false} MeaningConcat(a: seq<Part>, b: seq<Part>)
    ensures Meaning(a + b) == Meaning(a) + Meaning(b)
  {
    hide PartMeaning;
    if |a| == 0 {
      assert a + b == b;
    } else {
      assert (a + b)[1..] == a[1..] + b;
      MeaningConcat(a[1..], b);
    }
  }

  lemma {:induction false} DenotedConcat(a: Literal, b: Literal)
    ensures LegalParts(a + b) && Denoted(a + b) == Denoted(a) + Denoted(b)
  {
    hide Denotes;
    if |a| == 0 {
      assert a + b == b;
    } else {
      assert (a + b)[1..] == a[1..] + b;
      DenotedConcat(a[1..], b);
    }
  }

  lemma {:induction false} MeaningIsShort(l: Literal)
    ensures AllShort(Meaning(l))
  {
    if |l| > 0 {
      MeaningIsShort(l[1..]);
      assert LegalPart(l[0]);
      assert AllShort(PartMeaning(l[0]));
      ShortConcat(PartMeaning(l[0]), Meaning(l[1..]));
    }
  }

  /** A literal with a \uXXXX decodes to a text that spells it out. */
  lemma {:induction false} UnicodeIsSaid(l: Literal, i: nat)
    requires i < |l| && l[i].Unicode?
    ensures SaysEscape(Meaning(l))
  {
    hide EscapeAt;
    SaysEscapeConcat(PartMeaning(l[0]), Meaning(l[1..]));
    if i == 0 {
      var e := PartMeaning(l[0]);
      assert LegalPart(l[0]);
      HexIsEscape(l[0].hex);
      assert EscapeAt(e, 0);
    } else {
      UnicodeIsSaid(l[1..], i - 1);
    }
  }

  lemma HexIsEscape(hex: string)
    requires LegalPart(Unicode(hex))
    ensures EscapeAt(['\\', 'u'] + hex, 0)
  {
    var e := ['\\', 'u'] + hex;
    assert forall j :: 2 <= j < 6 ==> e[j] == hex[j - 2];
  }

  /** Where nothing is spelled out, decoding gives the text. */
  lemma SaysWhatItDenotes(l: Literal)
    requires !SaysEscape(Meaning(l))
    ensures Denoted(l) == UnitsOf(Meaning(l))
  {
    hide SaysEscape, Meaning, Denoted;
    forall i | 0 <= i < |l|
      ensures !l[i].Unicode?
    {
      if l[i].Unicode? {
        UnicodeIsSaid(l, i);
      }
    }
    NoUnicodeParts(l);
    MeaningUnits(l);
  }

  lemma {:induction false} EscapedSays(s: string)
    requires AllShort(s)
    ensures LegalParts(Spell(Escape, s)) && Meaning(Spell(Escape, s)) == s
    ensures Denoted(Spell(Escape, s)) == UnitsOf(s)
  {
    EscapeIsCorrect();
    SpelledDenotes(Escape, s);
    hide Denoted, UnitsOf;
    if |s| > 0 {
      assert AllShort(s[1..]) by { ShortConcat([s[0]], s[1..]); assert [s[0]] + s[1..] == s; }
      EscapedSays(s[1..]);
      assert Spell(Escape, s)[0] == Escape(s[0]) && Spell(Escape, s)[1..] == Spell(Escape, s[1..]);
      EscapedPartSays(s[0]);
    }
  }

  lemma EscapedPartSays(c: char)
    requires ShortEscape(c)
    ensures PartMeaning(Escape(c)) == [c]
  {
  }

  /** A text that spells out an escape is what two literals decode to: one that spells
      it out too, and one that has the escape. They denote different texts. */
  lemma TwoSpellings(s: string) returns (p: Literal, q: Literal)
    requires AllShort(s) && SaysEscape(s)
    ensures Meaning(p) == s && Meaning(q) == s
    ensures Denoted(p) == UnitsOf(s) && Solid(Denoted(q)) < Solid(Denoted(p))
  {
    var i :| 0 <= i < |s| && EscapeAt(s, i);
    var x, e, y := s[..i], s[i..i + 6], s[i + 6..];
    assert s == x + (e + y) && |e| == 6;
    ShortConcat(x, e + y);
    ShortConcat(e, y);
    EscapedSays(s);
    p := Spell(Escape, s);
    q := EscapeKept(x, e, y);
    SolidSplit(x, e, y);
  }

  lemma SolidSplit(x: string, e: string, y: string)
    requires EscapeAt(e, 0) && |e| == 6
    ensures Solid(UnitsOf(x + (e + y))) == Solid(UnitsOf(x)) + 6 + Solid(UnitsOf(y))
  {
    UnitsConcat(x, e + y);
    UnitsConcat(e, y);
    SolidConcat(UnitsOf(x), UnitsOf(e + y));
    SolidConcat(UnitsOf(e), UnitsOf(y));
    AllSolid(e);
  }

  lemma {:induction false} AllSolid(e: string)
    requires forall i :: 0 <= i < |e| ==> ' ' < e[i] < '\U{0080}'
    ensures Solid(UnitsOf(e)) == |e|
  {
    if |e| > 0 {
      assert forall i :: 0 <= i < |e| - 1 ==> e[1..][i] == e[i + 1];
      AllSolid(e[1..]);
      SolidConcat(Units(e[0]), UnitsOf(e[1..]));
      assert Units(e[0]) == [e[0] as int];
      assert Solid([e[0] as int]) == 1 by { assert [e[0] as int][1..] == []; }
    }
  }

  lemma EscapeKept(x: string, e: string, y: string) returns (q: Literal)
    requires AllShort(x) && AllShort(y) && EscapeAt(e, 0) && |e| == 6
    ensures Meaning(q) == x + (e + y)
    ensures Solid(Denoted(q)) <= Solid(UnitsOf(x)) + 1 + Solid(UnitsOf(y))
  {
    var hex := e[2..];
    assert e == ['\\', 'u'] + hex;
    EscapedSays(x);
    EscapedSays(y);
    var a: Literal, u: Literal, b: Literal := Spell(Escape, x), [Unicode(hex)], Spell(Escape, y);
    OneEscape(hex);
    hide Denoted, Meaning, Solid;
    DenotedConcat(u, b);
    DenotedConcat(a, u + b);
    MeaningConcat(u, b);
    MeaningConcat(a, u + b);
    q := a + (u + b);
    SolidConcat(Denoted(u), Denoted(b));
    SolidConcat(Denoted(a), Denoted(u + b));
  }

  lemma OneEscape(hex: string)
    requires LegalPart(Unicode(hex))
    ensures LegalParts([Unicode(hex)]) && Meaning([Unicode(hex)]) == ['\\', 'u'] + hex
    ensures Solid(Denoted([Unicode(hex)])) <= 1
  {
    var u := [Unicode(hex)];
    assert u[1..] == [];
    assert Denoted(u) == [HexValue(hex)];
    assert Denoted(u)[1..] == [];
  }

  // ----- forms and the texts they stand for --------------------------------

  /** A literal as it enters the key, canonicalized first or not. */
  function FormAs(anew: bool, l: Literal): Literal
  {
    Compacted(if anew then CanonicalLiteral(l) else l)
  }

  /** The character json.Marshal wrote this part for. */
  function SaidChar(p: Part): char
    requires LegalPart(p)
  {
    match p
    case Plain(c) => c
    case Escaped(c) => UnescapePair(c)[0]
    case Unicode(hex) => if 0 <= HexValue(hex) < 0xD800 then HexValue(hex) as char else ' '
  }

  function Said(f: Literal): string
  {
    seq(|f|, i requires 0 <= i < |f| => assert LegalPart(f[i]); SaidChar(f[i]))
  }

  /** These bytes are what json.Marshal writes for a canonical text that spells out a
      \uXXXX, and whose control characters all have short escapes. */
  predicate Ambiguous(f: Literal)
  {
    var w := Said(f);
    f == Marshalled(w) && Canonical.IsCanonical(w) && AllShort(w) && SaysEscape(w)
  }

  lemma SaidOfMarshal(c: char)
    ensures LegalPart(Marshal(c)) && SaidChar(Marshal(c)) == c
  {
    MarshalledIsCorrect(c);
    if Marshal(c).Unicode? {
      HexReadsBack(c as int);
    }
    hide Denotes, Units, Hex4, HexValue;
  }

  lemma SaidOfMarshalled(w: string)
    ensures Said(Marshalled(w)) == w
  {
    hide SaidChar, Marshal;
    forall i | 0 <= i < |w|
      ensures Said(Marshalled(w))[i] == w[i]
    {
      SaidOfMarshal(w[i]);
    }
  }

  lemma MarshalledDenotes(w: string)
    ensures Denoted(Marshalled(w)) == UnitsOf(w)
  {
    MarshalIsCorrect();
    SpelledDenotes(Marshal, w);
    assert Marshalled(w) == Spell(Marshal, w);
  }

  lemma HtmlPartDenotes(p: Part)
    requires LegalPart(p)
    ensures LegalPart(HtmlPart(p)) && Denotes(HtmlPart(p)) == Denotes(p)
  {
    if HtmlPart(p) != p {
      SpelledInHex(p.c);
    }
  }

  /** Compaction changes bytes only. */
  lemma {:induction false} CompactedDenotes(l: Literal)
    ensures Denoted(Compacted(l)) == Denoted(l)
  {
    hide HtmlPart, Denotes;
    if |l| > 0 {
      CompactedDenotes(l[1..]);
      assert LegalPart(l[0]);
      HtmlPartDenotes(l[0]);
      assert Compacted(l)[0] == HtmlPart(l[0]) && Compacted(l)[1..] == Compacted(l[1..]);
    }
  }

  /** What is known of a literal that is written anew. */
  lemma WrittenAnew(l: Literal)
    requires Changed(l)
    ensures var w := Canonical.CanonicalizeString(Meaning(l));
            && FormAs(true, l) == Marshalled(w) && Said(FormAs(true, l)) == w
            && Canonical.IsCanonical(w) && Canonical.Linked(Meaning(l), w) && Kin(Meaning(l), w) && AllShort(w)
    ensures Ambiguous(FormAs(true, l)) <==> SaysEscape(Meaning(l))
  {
    var w := Canonical.CanonicalizeString(Meaning(l));
    CanonicalLiteralIs(l);
    CompactedMarshalled(w);
    SaidOfMarshalled(w);
    Canonical.ResultIsCanonical(Meaning(l));
    Canonical.LinkedToCanonical(Meaning(l));
    LinkedAreKin(Meaning(l), w);
    MeaningIsShort(l);
    hide Said, SaysEscape, AllShort, Canonical.IsCanonical, Canonical.CanonicalizeString, Canonical.Linked, Meaning,
         CanonicalLiteral, Changed;
  }

  /** A literal and its form denote the same text, up to white space if it is written anew,
      unless the form is ambiguous. */
  lemma FormTellsText(anew: bool, l: Literal)
    requires !Ambiguous(FormAs(anew, l))
    ensures var f := FormAs(anew, l);
            if anew && Changed(l) then
              && Denoted(l) == UnitsOf(Meaning(l)) && Denoted(f) == UnitsOf(Said(f))
              && Canonical.Linked(Meaning(l), Said(f))
            else Denoted(l) == Denoted(f)
  {
    hide Ambiguous, Changed, Compacted, CanonicalLiteral, Denoted, UnitsOf, Said, Meaning, Kin;
    hide Canonical.CanonicalizeString, Canonical.Linked, Canonical.IsCanonical, SaysEscape, AllShort;
    if anew && Changed(l) {
      WrittenAnew(l);
      SaysWhatItDenotes(l);
      MarshalledDenotes(Said(FormAs(anew, l)));
    } else {
      CanonicalLiteralIs(l);
      CompactedDenotes(l);
    }
  }

  lemma SharedIsAlike(anewA: bool, a: Literal, anewB: bool, b: Literal)
    requires FormAs(anewA, a) == FormAs(anewB, b) && !Ambiguous(FormAs(anewA, a))
    ensures ReadsAlike(a, b)
  {
    FormTellsText(anewA, a);
    FormTellsText(anewB, b);
    var w := Said(FormAs(anewA, a));
    hide Ambiguous, Changed, FormAs, Denoted, UnitsOf, Said, Meaning, Canonical.Linked;
    var anew, bnew := anewA && Changed(a), anewB && Changed(b);
    if anew {
      Canonical.LinkedReflexive(w);
      if bnew {
        Canonical.LinkedSymmetric(Meaning(b), w);
        Canonical.LinkedTransitive(Meaning(a), w, Meaning(b));
      }
    } else if bnew {
      Canonical.LinkedSymmetric(Meaning(b), w);
    }
  }

  lemma BlankAppended(w: string)
    requires Canonical.IsCanonical(w) && AllShort(w) && SaysEscape(w)
    ensures var s := w + " ";
            && Canonical.CanonicalizeString(s) == w && !Canonical.IsCanonical(s) && AllShort(s) && SaysEscape(s)
  {
    var e := Canonical.TrailingBlank(w, ' ');
    Canonical.LinkedByEdit(e);
    Canonical.SameKeyIffLinked(w + " ", w);
    Canonical.FixedPoints(w);
    ShortConcat(w, " ");
    SaysEscapeConcat(w, " ");
    hide SaysEscape, Canonical.CanonicalizeString, Canonical.Linked;
    assert (w + " ")[|w|] == ' ';
  }

  /** An ambiguous form is shared by two literals of which at most one reads like `a`. */
  lemma OtherText(f: Literal, a: Literal) returns (b: Literal)
    requires Ambiguous(f)
    ensures Changed(b) && FormAs(true, b) == f && SaysEscape(Meaning(b)) && !ReadsAlike(a, b)
  {
    hide Changed, FormAs, Denoted, Solid, Meaning, SaysEscape, AllShort, ReadsAlike, Canonical.CanonicalizeString;
    var w := Said(f);
    BlankAppended(w);
    var p, q := TwoSpellings(w + " ");
    assert Changed(p) && Changed(q) by { ChangedIs(p); ChangedIs(q); }
    WrittenAnew(p);
    WrittenAnew(q);
    if ReadsAlike(a, p) && ReadsAlike(a, q) {
      AlikeIsAsSolid(a, p);
      AlikeIsAsSolid(a, q);
      assert false;
    }
    b := if ReadsAlike(a, p) then q else p;
  }

  lemma ChangedIs(l: Literal)
    ensures Changed(l) <==> !Canonical.IsCanonical(Meaning(l))
  {
  }

  /** All literals that share a form with `a` read like it, up to white space, exactly
      when that form is not ambiguous. */
  lemma OneFormOneTextIff(a: Literal)
    ensures (forall b: Literal :: SharesForm(a, b) ==> ReadsAlike(a, b)) <==> !Ambiguous(FormAs(true, a))
  {
    hide Ambiguous, ReadsAlike, Compacted, CanonicalLiteral, Changed, SaysEscape, Meaning;
    if Ambiguous(FormAs(true, a)) {
      var b := OtherText(FormAs(true, a), a);
      assert SharesForm(a, b);
    } else {
      forall b: Literal | SharesForm(a, b)
        ensures ReadsAlike(a, b)
      {
        SharedIsAlike(true, a, true, b);
      }
    }
  }

  /** What that means before anything is canonicalized: for a literal whose text changes,
      and for one spelled as json.Marshal spells it, that the decoded text spells out a
      \uXXXX. A literal that is kept is never ambiguous if it has a \uXXXX, \/, \b or
      \f that json.Marshal would not write. */
  lemma AmbiguousIff(a: Literal)
    ensures Changed(a) || PlainlySpelled(a) ==> (Ambiguous(FormAs(true, a)) <==> SaysEscape(Meaning(a)))
    ensures !Changed(a) && (exists p :: p in a && Foreign(p)) ==> !Ambiguous(FormAs(true, a))
  {
    hide Ambiguous, Changed, PlainlySpelled, FormAs, Meaning, SaysEscape, Foreign;
    if Changed(a) {
      WrittenAnew(a);
    } else {
      if PlainlySpelled(a) {
        PlainIsAmbiguousIff(a);
      }
      if p :| p in a && Foreign(p) {
        var i :| 0 <= i < |a| && a[i] == p;
        ForeignIsSafe(a, i);
      }
    }
  }

  /** Not how json.Marshal writes the character. */
  predicate Foreign(p: Part)
  {
    LegalPart(p) && LegalPart(HtmlPart(p)) && HtmlPart(p) != Marshal(SaidChar(HtmlPart(p)))
  }

  lemma ForeignIsSafe(a: Literal, i: nat)
    requires !Changed(a) && i < |a| && Foreign(a[i])
    ensures !Ambiguous(FormAs(true, a))
  {
    hide Changed, HtmlPart, Marshal, SaidChar, SaysEscape, AllShort, Canonical.IsCanonical, Meaning;
    CanonicalLiteralIs(a);
    var f := FormAs(true, a);
    assert f[i] == HtmlPart(a[i]);
    assert Marshalled(Said(f))[i] == Marshal(Said(f)[i]);
  }

  lemma PlainIsAmbiguousIff(a: Literal)
    requires !Changed(a) && PlainlySpelled(a)
    ensures Ambiguous(FormAs(true, a)) <==> SaysEscape(Meaning(a))
  {
    CanonicalLiteralIs(a);
    SpellingIsExact(a);
    SaidOfMarshalled(Meaning(a));
    MeaningIsShort(a);
    ChangedIs(a);
    hide Changed, SaysEscape, AllShort, Canonical.IsCanonical, Meaning, Said, PlainlySpelled, CanonicalLiteral,
         Canonical.CanonicalizeString;
  }

  /** Among the literals that decode to the same text and share a form, all denote that
      text exactly when it spells out no \uXXXX. */
  lemma SameTextIff(a: Literal)
    requires Changed(a)
    ensures (forall b: Literal :: SharesForm(a, b) && Meaning(b) == Meaning(a) ==> Denoted(b) == Denoted(a))
            <==> !SaysEscape(Meaning(a))
  {
    hide Compacted, CanonicalLiteral, Denoted, UnitsOf, Meaning, SaysEscape, Changed;
    if SaysEscape(Meaning(a)) {
      MeaningIsShort(a);
      var p, q := TwoSpellings(Meaning(a));
      ChangedIs(a);
      ChangedIs(p);
      ChangedIs(q);
      WrittenAnew(a);
      WrittenAnew(p);
      WrittenAnew(q);
      assert SharesForm(a, p) && SharesForm(a, q);
    } else {
      SaysWhatItDenotes(a);
      forall b: Literal | SharesForm(a, b) && Meaning(b) == Meaning(a)
        ensures Denoted(b) == Denoted(a)
      {
        SaysWhatItDenotes(b);
      }
    }
  }
}
