// CCR canonicalization of a content literal: which literals share a form in the cache
// key.  The canonicalizer keeps an unchanged literal as the client spelled it and writes
// a changed one anew.  A char is a character here.
module CanonicalLiterals {
  import opened Text
  import opened JsonScan
  import opened SystemContent
  import opened JsonText
  import Canonical

  /** What stands between the quotes of a string literal. */
  type Literal = parts: seq<Part> | LegalParts(parts) witness []

  function Marshalled(s: string): (l: Literal)
    ensures |l| == |s| && forall i :: 0 <= i < |s| ==> l[i] == Marshal(s[i])
  {
    assert forall i :: 0 <= i < |s| ==> LegalPart(Marshal(s[i]));
    Spell(Marshal, s)
  }

  /** The decoded text is canonicalized; only a text that changes is written anew. */
  function CanonicalLiteral(l: Literal): Literal
  {
    var text := Meaning(l);
    if Canonical.CanonicalizeString(text) == text then l else Marshalled(Canonical.CanonicalizeString(text))
  }

  /** The compaction json.Marshal applies to raw messages escapes for HTML. */
  function HtmlPart(p: Part): Part
  {
    if p.Plain? && HtmlSpecial(p.c) then Unicode(Hex4(p.c as int)) else p
  }

  function Compacted(l: Literal): (r: Literal)
    ensures |r| == |l| && forall i :: 0 <= i < |l| ==> r[i] == HtmlPart(l[i])
  {
    assert forall i :: 0 <= i < |l| ==> LegalPart(l[i]) && LegalPart(HtmlPart(l[i]));
    seq(|l|, i requires 0 <= i < |l| => HtmlPart(l[i]))
  }

  predicate Changed(l: Literal)
  {
    !Canonical.IsCanonical(Meaning(l))
  }

  /** The two literals end up as the same bytes of the key. */
  predicate SharesForm(a: Literal, b: Literal)
  {
    Compacted(CanonicalLiteral(a)) == Compacted(CanonicalLiteral(b))
  }

  /** Parts and bytes tell literals apart alike. */
  lemma SameBytesIffSameParts(a: Literal, b: Literal)
    ensures PrintParts(a) == PrintParts(b) <==> a == b
  {
    if PrintParts(a) == PrintParts(b) {
      PrintIsInjective(a, b);
    }
  }

  lemma CanonicalLiteralIs(l: Literal)
    ensures CanonicalLiteral(l) == if Changed(l) then Marshalled(Canonical.CanonicalizeString(Meaning(l))) else l
    ensures !Changed(l) ==> Canonical.CanonicalizeString(Meaning(l)) == Meaning(l)
  {
    Canonical.FixedPoints(Meaning(l));
  }

  lemma CompactedMarshalled(s: string)
    ensures Compacted(Marshalled(s)) == Marshalled(s)
  {
  }

  lemma MarshalledIsInjective(s: string, t: string)
    requires Marshalled(s) == Marshalled(t)
    ensures s == t
  {
    forall i | 0 <= i < |s|
      ensures s[i] == t[i]
    {
      assert Marshalled(s)[i] == Marshalled(t)[i];
      MarshalIsInjective(s[i], t[i]);
    }
  }

  /** Exactly when two literals share a form: two changed ones when their texts are
      linked by white-space edits, two unchanged ones when they are spelled alike, and a
      changed and an unchanged one when the unchanged one is what json.Marshal writes
      for the canonical text of the other. */
  lemma {:induction false} SharesFormIff(a: Literal, b: Literal)
    ensures SharesForm(a, b) <==>
              if Changed(a) && Changed(b) then Canonical.Linked(Meaning(a), Meaning(b))
              else if Changed(a) then Compacted(b) == Marshalled(Canonical.CanonicalizeString(Meaning(a)))
              else if Changed(b) then Compacted(a) == Marshalled(Canonical.CanonicalizeString(Meaning(b)))
              else Compacted(a) == Compacted(b)
  {
    hide CanonicalLiteral, Changed, Canonical.Linked, Canonical.CanonicalizeString, Meaning;
    CanonicalLiteralIs(a);
    CanonicalLiteralIs(b);
    var s, t := Canonical.CanonicalizeString(Meaning(a)), Canonical.CanonicalizeString(Meaning(b));
    CompactedMarshalled(s);
    CompactedMarshalled(t);
    Canonical.SameKeyIffLinked(Meaning(a), Meaning(b));
    if Marshalled(s) == Marshalled(t) {
      MarshalledIsInjective(s, t);
    }
  }

  // ----- what the bytes tell -----------------------------------------------

  /** Nothing json.Marshal would spell another way: no \uXXXX, no \/, no \b, no \f. */
  predicate PlainlySpelled(l: Literal)
  {
    forall i :: 0 <= i < |l| ==> PlainPart(l[i])
  }

  predicate PlainPart(p: Part)
  {
    match p
    case Plain(_) => true
    case Escaped(c) => c == '"' || c == '\\' || c == 'n' || c == 'r' || c == 't'
    case Unicode(_) => false
  }

  predicate NoUnicode(l: Literal)
  {
    forall i :: 0 <= i < |l| ==> !l[i].Unicode?
  }

  lemma {:induction false} MeaningLength(parts: seq<Part>)
    requires LegalParts(parts)
    ensures |Meaning(parts)| == |parts| + 5 * UnicodeParts(parts)
    ensures UnicodeParts(parts) == 0 ==> forall i :: 0 <= i < |parts| ==> PartMeaning(parts[i]) == [Meaning(parts)[i]]
  {
    if |parts| > 0 {
      MeaningLength(parts[1..]);
      var p := parts[0];
      assert |PartMeaning(p)| == if p.Unicode? then 6 else 1;
      assert forall i :: 0 < i < |parts| ==> parts[i] == parts[1..][i - 1];
    }
  }

  /** The decoded text of a literal without \uXXXX has one character for each part. */
  lemma MeaningOfNoUnicode(l: Literal)
    requires NoUnicode(l)
    ensures |Meaning(l)| == |l| && forall i :: 0 <= i < |l| ==> PartMeaning(l[i]) == [Meaning(l)[i]]
  {
    MeaningLength(l);
    NoUnicodeParts(l);
  }

  lemma PlainPartIsMarshalled(p: Part)
    requires LegalPart(p) && !p.Unicode?
    ensures |PartMeaning(p)| == 1 && (PlainPart(p) <==> HtmlPart(p) == Marshal(PartMeaning(p)[0]))
  {
  }

  /** A literal is spelled the way json.Marshal spells its text exactly when its bytes
      are plain. */
  lemma {:induction false} SpellingIsExact(l: Literal)
    ensures Compacted(l) == Marshalled(Meaning(l)) <==> PlainlySpelled(l)
  {
    hide Meaning, PartMeaning, HtmlPart, Marshal, PlainPart;
    MeaningLength(l);
    NoUnicodeParts(l);
    if UnicodeParts(l) == 0 {
      assert forall i :: 0 <= i < |l| ==> LegalPart(l[i]);
      forall i | 0 <= i < |l|
        ensures PlainPart(l[i]) <==> Compacted(l)[i] == Marshalled(Meaning(l))[i]
      {
        PlainPartIsMarshalled(l[i]);
        assert PartMeaning(l[i]) == [Meaning(l)[i]];
      }
    } else {
      var i :| 0 <= i < |l| && l[i].Unicode?;
      UnicodeIsNotPlain(l[i]);
    }
  }

  lemma UnicodeIsNotPlain(p: Part)
    requires p.Unicode?
    ensures !PlainPart(p)
  {
  }

  /** White-space edits keep the key exactly when both literals are written anew, when
      neither is and they are spelled alike, or when the one that is left alone is
      plainly spelled. */
  lemma {:induction false} EditsKeepTheFormIff(a: Literal, b: Literal)
    requires Canonical.Linked(Meaning(a), Meaning(b))
    ensures SharesForm(a, b) <==>
              if Changed(a) && Changed(b) then true
              else if Changed(a) then PlainlySpelled(b)
              else if Changed(b) then PlainlySpelled(a)
              else Compacted(a) == Compacted(b)
  {
    hide *;
    SharesFormIff(a, b);
    Canonical.SameKeyIffLinked(Meaning(a), Meaning(b));
    CanonicalLiteralIs(a);
    CanonicalLiteralIs(b);
    SpellingIsExact(a);
    SpellingIsExact(b);
  }

  lemma PlainlySpelledForm(l: Literal)
    requires PlainlySpelled(l)
    ensures Compacted(CanonicalLiteral(l)) == Marshalled(Canonical.CanonicalizeString(Meaning(l)))
  {
    hide *;
    CanonicalLiteralIs(l);
    SpellingIsExact(l);
    CompactedMarshalled(Canonical.CanonicalizeString(Meaning(l)));
  }

  /** Plainly spelled literals share a form exactly when white-space edits link them. */
  lemma {:induction false} PlainlySpelledShareIff(a: Literal, b: Literal)
    requires PlainlySpelled(a) && PlainlySpelled(b)
    ensures SharesForm(a, b) <==> Canonical.Linked(Meaning(a), Meaning(b))
  {
    PlainlySpelledForm(a);
    PlainlySpelledForm(b);
    Canonical.SameKeyIffLinked(Meaning(a), Meaning(b));
    hide Compacted, CanonicalLiteral, Marshalled, Canonical.CanonicalizeString, Canonical.Linked, Meaning;
    var s, t := Canonical.CanonicalizeString(Meaning(a)), Canonical.CanonicalizeString(Meaning(b));
    if Marshalled(s) == Marshalled(t) {
      MarshalledIsInjective(s, t);
    }
  }

  lemma HtmlPartIsInjective(p: Part, q: Part)
    requires !p.Unicode? && !q.Unicode? && HtmlPart(p) == HtmlPart(q)
    ensures p == q
  {
    if HtmlPart(p).Unicode? {
      HexIsInjective(p.c as int, q.c as int);
    }
  }

  lemma MarshalledPart(p: Part, c: char)
    requires LegalPart(p) && !p.Unicode? && HtmlPart(p) == Marshal(c)
    ensures PartMeaning(p) == [c]
  {
    if Marshal(c).Unicode? {
      HexIsInjective(p.c as int, c as int);
    }
  }

  /** An unchanged literal without \uXXXX is what json.Marshal writes for a text only if
      it says that text. */
  lemma MarshalledSays(l: Literal, s: string)
    requires NoUnicode(l) && Compacted(l) == Marshalled(s)
    ensures Meaning(l) == s
  {
    MeaningOfNoUnicode(l);
    assert forall i :: 0 <= i < |l| ==> LegalPart(l[i]);
    hide Meaning, PartMeaning, HtmlPart, Marshal;
    forall i | 0 <= i < |l|
      ensures Meaning(l)[i] == s[i]
    {
      assert Compacted(l)[i] == Marshalled(s)[i];
      MarshalledPart(l[i], s[i]);
    }
  }

  /** Without \uXXXX a shared form means texts linked by white-space edits. */
  lemma {:induction false} SharedFormsAreLinked(a: Literal, b: Literal)
    requires NoUnicode(a) && NoUnicode(b) && SharesForm(a, b)
    ensures Canonical.Linked(Meaning(a), Meaning(b))
  {
    SharesFormIff(a, b);
    Canonical.SameKeyIffLinked(Meaning(a), Meaning(b));
    CanonicalLiteralIs(a);
    CanonicalLiteralIs(b);
    hide Changed, CanonicalLiteral, Canonical.Linked, Canonical.CanonicalizeString, Meaning;
    if Changed(a) && Changed(b) {
    } else if Changed(a) {
      MarshalledSays(b, Canonical.CanonicalizeString(Meaning(a)));
    } else if Changed(b) {
      MarshalledSays(a, Canonical.CanonicalizeString(Meaning(b)));
    } else {
      SpelledAlike(a, b);
    }
  }

  lemma SpelledAlike(a: Literal, b: Literal)
    requires NoUnicode(a) && NoUnicode(b) && Compacted(a) == Compacted(b)
    ensures a == b
  {
    forall i | 0 <= i < |a|
      ensures a[i] == b[i]
    {
      assert Compacted(a)[i] == Compacted(b)[i];
      HtmlPartIsInjective(a[i], b[i]);
    }
  }

  // ----- where spelling shows ----------------------------------------------

  function PlainText(s: string): seq<Part>
  {
    seq(|s|, i requires 0 <= i < |s| => Plain(s[i]))
  }

  /** A part, then plain characters. */
  function Headed(p: Part, s: string): seq<Part>
  {
    [p] + PlainText(s)
  }

  lemma {:induction false} PlainTextSays(s: string)
    requires forall i :: 0 <= i < |s| ==> LegalPart(Plain(s[i]))
    ensures LegalParts(PlainText(s)) && Meaning(PlainText(s)) == s
  {
    if |s| > 0 {
      assert forall i :: 0 <= i < |s| - 1 ==> s[1..][i] == s[i + 1];
      PlainTextSays(s[1..]);
      assert PlainText(s)[1..] == PlainText(s[1..]);
      assert s == [s[0]] + s[1..];
    }
  }

  lemma HeadedSays(p: Part, s: string)
    requires LegalPart(p) && forall i :: 0 <= i < |s| ==> LegalPart(Plain(s[i]))
    ensures LegalParts(Headed(p, s)) && Meaning(Headed(p, s)) == PartMeaning(p) + s
    ensures Headed(p, s)[0] == p
    ensures |s| >= 1 ==> Denoted(Headed(p, s)) == Denotes(p) + Denoted(PlainText(s))
  {
    PlainTextSays(s);
    assert Headed(p, s)[1..] == PlainText(s);
  }

  /** Two spaces instead of one before a final character, in literals that agree
      otherwise: linked, and only the one with two spaces is written anew. */
  lemma TwoSpaces(p: Part)
    requires LegalPart(p) && Canonical.IsCanonical(PartMeaning(p) + " x")
    ensures LegalParts(Headed(p, "  x")) && LegalParts(Headed(p, " x"))
    ensures var two, one := Headed(p, "  x"), Headed(p, " x");
            && Meaning(one) == PartMeaning(p) + " x"
            && Canonical.Linked(Meaning(two), Meaning(one)) && Changed(two) && !Changed(one)
            && (SharesForm(two, one) <==> PlainlySpelled(one))
  {
    hide Canonical.Linked, Canonical.CanonicalizeString, SharesForm, PlainlySpelled, Headed, Meaning, PartMeaning;
    assert forall i :: 0 <= i < 3 ==> LegalPart(Plain("  x"[i]));
    assert forall i :: 0 <= i < 2 ==> LegalPart(Plain(" x"[i]));
    HeadedSays(p, "  x");
    HeadedSays(p, " x");
    var x := PartMeaning(p);
    Canonical.LinkedByEdit(Canonical.DoubledSpace(x, "x"));
    assert "  " + "x" == "  x" && " " + "x" == " x";
    var n := |x|;
    assert (x + "  x")[n] == ' ' && (x + "  x")[n + 1] == ' ';
    EditsKeepTheFormIff(Headed(p, "  x"), Headed(p, " x"));
  }

  const E_ACUTE := Unicode("00e9")

  /** One doubled space after a \u00e9 changes the key. */
  lemma SpacesAfterEscapesShow()
    ensures LegalParts(Headed(E_ACUTE, "  x")) && LegalParts(Headed(E_ACUTE, " x"))
    ensures var two, one := Headed(E_ACUTE, "  x"), Headed(E_ACUTE, " x");
            Canonical.Linked(Meaning(two), Meaning(one)) && !SharesForm(two, one)
  {
    EscapedCharacterIsCanonical();
    TwoSpaces(E_ACUTE);
    hide Canonical.Linked, SharesForm, Meaning;
    assert Headed(E_ACUTE, " x")[0] == E_ACUTE;
    UnicodeIsNotPlain(E_ACUTE);
  }

  lemma EscapedCharacterIsCanonical()
    ensures LegalPart(E_ACUTE) && PartMeaning(E_ACUTE) == "\\u00e9" && Canonical.IsCanonical("\\u00e9" + " x")
  {
    var s := "\\u00e9" + " x";
    assert s[6] == ' ' && s[7] == 'x' && |s| == 8;
    assert forall i :: 0 <= i < 6 ==> s[i] != ' ' && s[i] != '\r';
  }

  lemma SpelledOut()
    ensures LegalParts(Headed(Escaped('\\'), "u00e9 x"))
    ensures var out := Headed(Escaped('\\'), "u00e9 x");
            Meaning(out) == "\\u00e9" + " x" && PlainlySpelled(out) && |out| > 0 && out[0] == Escaped('\\')
  {
    SevenPlainCharacters();
    HeadedSays(Escaped('\\'), "u00e9 x");
    hide Meaning, LegalParts, LegalPart, Denoted, Denotes;
  }

  lemma SevenPlainCharacters()
    ensures LegalPart(Escaped('\\')) && forall i :: 0 <= i < |"u00e9 x"| ==> LegalPart(Plain("u00e9 x"[i]))
  {
  }

  lemma DifferentFronts(a: Literal, b: Literal)
    requires |a| > 0 && |b| > 0 && a[0] == E_ACUTE && b[0] == Escaped('\\')
    ensures Denoted(a) != Denoted(b)
  {
    assert Denoted(a)[0] == HexValue("00e9") == 0xe9;
    assert Denoted(b)[0] == 92;
  }

  /** And then the key is that of a literal that spells the six characters out, though
      the two literals denote different texts. */
  lemma SpelledOutSharesTheForm()
    ensures LegalParts(Headed(E_ACUTE, "  x")) && LegalParts(Headed(Escaped('\\'), "u00e9 x"))
    ensures var two, out := Headed(E_ACUTE, "  x"), Headed(Escaped('\\'), "u00e9 x");
            SharesForm(two, out) && Denoted(two) != Denoted(out)
  {
    EscapedCharacterIsCanonical();
    SpelledOut();
    TwoSpaces(E_ACUTE);
    var two, out := Headed(E_ACUTE, "  x"), Headed(Escaped('\\'), "u00e9 x");
    assert |two| > 0 && two[0] == E_ACUTE;
    hide *;
    EditsKeepTheFormIff(two, out);
    DifferentFronts(two, out);
  }

  /** A doubled space after \/ changes the key too, though \/ is a plain slash. */
  lemma SpacesAfterSlashesShow()
    ensures LegalParts(Headed(Escaped('/'), "  x")) && LegalParts(Headed(Escaped('/'), " x"))
    ensures var two, one := Headed(Escaped('/'), "  x"), Headed(Escaped('/'), " x");
            Canonical.Linked(Meaning(two), Meaning(one)) && !SharesForm(two, one)
  {
    SlashIsCanonical();
    TwoSpaces(Escaped('/'));
    hide Canonical.Linked, SharesForm, Meaning, LegalParts, PartMeaning, Canonical.IsCanonical;
    assert Headed(Escaped('/'), " x")[0] == Escaped('/');
    assert !PlainPart(Escaped('/'));
  }

  lemma SlashIsCanonical()
    ensures LegalPart(Escaped('/')) && PartMeaning(Escaped('/')) == "/" && Canonical.IsCanonical("/" + " x")
  {
    var s := "/" + " x";
    assert s[0] == '/' && s[1] == ' ' && s[2] == 'x' && |s| == 3;
  }

  // ----- canonicalizing twice ----------------------------------------------

  /** The text a marshalled character decodes to: itself, or six characters. */
  lemma UnitShape(c: char)
    ensures var u := PartMeaning(Marshal(c));
            || u == [c]
            || (|u| == 6 && u[0] == '\\' && forall i :: 0 <= i < 6 ==> u[i] != '\r' && !Canonical.Trailing(u[i]))
  {
    if c < ' ' || HtmlSpecial(c) {
      var hex := Hex4(c as int);
      assert forall i :: 0 <= i < 4 ==> HexDigit(hex[i]);
    }
  }

  lemma MeaningFront(w: string)
    requires |w| > 0
    ensures Meaning(Spell(Marshal, w)) == PartMeaning(Marshal(w[0])) + Meaning(Spell(Marshal, w[1..]))
  {
    hide Marshal, PartMeaning;
    assert Spell(Marshal, w)[1..] == Spell(Marshal, w[1..]);
  }

  lemma CanonicalConcat(u: string, v: string)
    requires |u| > 0 && forall i :: 0 <= i < |u| ==> u[i] != '\r'
    requires |u| == 1 || forall i :: 0 <= i < |u| ==> !Canonical.Trailing(u[i])
    requires Canonical.IsCanonical(v)
    requires |v| == 0 ==> !Canonical.Trailing(u[|u| - 1])
    requires |v| > 0 ==> !(u[|u| - 1] == ' ' && v[0] == ' ')
    ensures Canonical.IsCanonical(u + v)
  {
    var s := u + v;
    assert forall i :: 0 <= i < |u| ==> s[i] == u[i];
    assert forall i :: |u| <= i < |s| ==> s[i] == v[i - |u|];
    forall i | 0 < i < |s|
      ensures !(s[i - 1] == ' ' && s[i] == ' ')
    {
      if i > |u| {
        assert !(v[i - |u| - 1] == ' ' && v[i - |u|] == ' ');
      }
    }
  }

  /** What is written anew decodes to a canonical text again. */
  lemma {:induction false} MarshalledIsCanonical(w: string)
    requires Canonical.IsCanonical(w)
    ensures Canonical.IsCanonical(Meaning(Spell(Marshal, w)))
    ensures |w| > 0 ==> var m := Meaning(Spell(Marshal, w)); |m| > 0 && (m[0] == ' ' ==> w[0] == ' ')
  {
    if |w| > 0 {
      var rest := w[1..];
      assert forall i :: 0 <= i < |rest| ==> rest[i] == w[i + 1];
      MarshalledIsCanonical(rest);
      MeaningFront(w);
      UnitShape(w[0]);
      var u, v := PartMeaning(Marshal(w[0])), Meaning(Spell(Marshal, rest));
      if |rest| == 0 {
        assert v == "";
        assert !Canonical.Trailing(w[|w| - 1]);
      }
      hide Meaning, PartMeaning, Marshal;
      CanonicalConcat(u, v);
    }
  }

  lemma {:induction false} MarshalledKeepsBlankness(w: string, space: char -> bool)
    requires Canonical.IsSpaceClass(space) && Canonical.Blank(Meaning(Spell(Marshal, w)), space)
    ensures Canonical.Blank(w, space)
  {
    if |w| > 0 {
      var rest := w[1..];
      MeaningFront(w);
      UnitShape(w[0]);
      var u := PartMeaning(Marshal(w[0]));
      hide Meaning, PartMeaning, Marshal;
      Canonical.BlankConcat(u, Meaning(Spell(Marshal, rest)), space);
      assert u[0] != '\\' ==> u == [w[0]];
      MarshalledKeepsBlankness(rest, space);
      assert forall i :: 0 < i < |w| ==> w[i] == rest[i - 1];
    }
  }

  lemma {:induction false} CanonicalLiteralIdempotent(l: Literal)
    ensures !Changed(CanonicalLiteral(l)) && CanonicalLiteral(CanonicalLiteral(l)) == CanonicalLiteral(l)
  {
    CanonicalLiteralIs(l);
    if Changed(l) {
      var w := Canonical.CanonicalizeString(Meaning(l));
      Canonical.ResultIsCanonical(Meaning(l));
      MarshalledIsCanonical(w);
    }
    CanonicalLiteralIs(CanonicalLiteral(l));
  }
}
