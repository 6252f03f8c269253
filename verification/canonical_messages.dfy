// CCR canonicalization of a request: which message lists share a cache key, and when a
// key stands for one text.  A char is a character here.
module CanonicalMessages {
  import opened Text
  import opened JsonScan
  import opened ToolMessages
  import opened SystemContent
  import opened JsonText
  import opened CanonicalLiterals
  import opened OneText
  import Canonical

  // ----- reading the role --------------------------------------------------

  const ROLE_KEY := "\"role\":"

  function SkipBlanks(s: string): string
  {
    if |s| > 0 && (s[0] == ' ' || s[0] == '\t') then SkipBlanks(s[1..]) else s
  }

  /** What stands before the first quote, if there is one. */
  function UpToQuote(s: string): Option<string>
  {
    if |s| == 0 then None
    else if s[0] == '"' then Some("")
    else Prefixed([s[0]], UpToQuote(s[1..]))
  }

  /** The text behind the first "role" key that its colon follows directly. */
  function RoleIn(raw: string): string
  {
    var at := IndexOf(raw, ROLE_KEY);
    if at < 0 then ""
    else
      var value := SkipBlanks(raw[at + |ROLE_KEY|..]);
      if |value| == 0 || value[0] != '"' then ""
      else
        var word := UpToQuote(value[1..]);
        if word.Some? then word.value else ""
  }

  method ExtractRole(raw: string) returns (role: string)
    ensures role == RoleIn(raw)
  {
    hide IndexOf, UpToQuote;
    var idx := BytesIndex(raw, ROLE_KEY);
    if idx < 0 {
      return "";
    }
    var i := idx + |ROLE_KEY|;
    ghost var value := SkipBlanks(raw[i..]);
    while i < |raw| && (raw[i] == ' ' || raw[i] == '\t')
      invariant i <= |raw| && SkipBlanks(raw[i..]) == value
    {
      assert raw[i..][1..] == raw[i + 1..];
      i := i + 1;
    }
    assert value == raw[i..];
    if i >= |raw| || raw[i] != '"' {
      return "";
    }
    assert value[1..] == raw[i + 1..];
    var j, found := QuoteFrom(raw, i + 1);
    if !found {
      return "";
    }
    return raw[i + 1..j];
  }

  method QuoteFrom(raw: string, i: nat) returns (j: nat, found: bool)
    requires i <= |raw|
    ensures i <= j <= |raw| && UpToQuote(raw[i..]) == if found then Some(raw[i..j]) else None
  {
    hide UpToQuote, Prefixed;
    j := i;
    ghost var word := UpToQuote(raw[i..]);
    assert raw[i..i] == "";
    PrefixedTwice("", "", word);
    while j < |raw| && raw[j] != '"'
      invariant i <= j <= |raw| && word == Prefixed(raw[i..j], UpToQuote(raw[j..]))
    {
      BeforeQuote(raw[i..j], raw[j..]);
      assert raw[j..][1..] == raw[j + 1..] && raw[j..][0] == raw[j];
      assert raw[i..j + 1] == raw[i..j] + [raw[j]];
      j := j + 1;
    }
    found := j < |raw|;
    AtQuote(raw[i..j], raw[j..]);
  }

  lemma BeforeQuote(front: string, s: string)
    requires |s| > 0 && s[0] != '"'
    ensures Prefixed(front, UpToQuote(s)) == Prefixed(front + [s[0]], UpToQuote(s[1..]))
  {
    PrefixedTwice(front, [s[0]], UpToQuote(s[1..]));
  }

  lemma AtQuote(front: string, s: string)
    requires |s| > 0 ==> s[0] == '"'
    ensures Prefixed(front, UpToQuote(s)) == if |s| > 0 then Some(front) else None
  {
    assert front + "" == front;
  }

  predicate NoQuote(s: string)
  {
    forall i :: 0 <= i < |s| ==> s[i] != '"'
  }

  lemma {:induction false} UpToFirstQuote(name: string, rest: string)
    requires NoQuote(name)
    ensures UpToQuote(name + "\"" + rest) == Some(name)
  {
    var s := name + "\"" + rest;
    if |name| > 0 {
      UpToFirstQuote(name[1..], rest);
      assert s[1..] == name[1..] + "\"" + rest && s[0] == name[0];
      assert [name[0]] + name[1..] == name;
    }
  }

  /** A role whose colon follows its key directly is read, with anything behind it. */
  lemma RoleIsRead(lead: string, name: string, rest: string)
    requires NoQuote(lead) && NoQuote(name)
    ensures RoleIn(lead + (ROLE_KEY + ("\"" + (name + "\"" + rest)))) == name
  {
    var tail := name + "\"" + rest;
    var s := lead + (ROLE_KEY + ("\"" + tail));
    forall k | 0 <= k < |lead|
      ensures !OccursAt(s, ROLE_KEY, k)
    {
      assert s[k] == lead[k];
      Differs(s, ROLE_KEY, k, 0);
    }
    assert s[|lead|..|lead| + |ROLE_KEY|] == ROLE_KEY;
    LeastIsIndexOf(s, ROLE_KEY, |lead|);
    assert s[|lead| + |ROLE_KEY|..] == "\"" + tail;
    assert ("\"" + tail)[1..] == tail;
    UpToFirstQuote(name, rest);
    hide UpToQuote, OccursAt, IndexOf;
  }

  /** One blank before the colon, and the role is not found. */
  lemma BlankHidesTheRole(lead: string, rest: string)
    requires NoQuote(lead) && IndexOf(rest, ROLE_KEY) < 0
    ensures RoleIn(lead + ("\"role\" :" + rest)) == ""
  {
    var n := |lead|;
    var s := lead + ("\"role\" :" + rest);
    IndexOfIsLeast(rest, ROLE_KEY);
    forall k | 0 <= k
      ensures !OccursAt(s, ROLE_KEY, k)
    {
      if k < n {
        assert s[k] == lead[k];
        Differs(s, ROLE_KEY, k, 0);
      } else if k < n + 8 {
        HiddenKey(lead, rest, k);
      } else {
        assert s == (lead + "\"role\" :") + rest;
        if OccursAt(s, ROLE_KEY, k) {
          OccursBehind(lead + "\"role\" :", rest, ROLE_KEY, k - n - 8);
        }
      }
    }
    hide OccursAt, IndexOf;
    LeastIsIndexOf(s, ROLE_KEY, -1);
  }

  lemma OccursBehind(front: string, rest: string, lit: string, k: nat)
    requires OccursAt(front + rest, lit, |front| + k)
    ensures OccursAt(rest, lit, k)
  {
    var s, n := front + rest, |front|;
    assert forall i :: n <= i < |s| ==> s[i] == rest[i - n];
    assert s[n + k..n + k + |lit|] == rest[k..k + |lit|];
  }

  lemma HiddenKey(lead: string, rest: string, k: nat)
    requires |lead| <= k < |lead| + 8
    ensures !OccursAt(lead + ("\"role\" :" + rest), ROLE_KEY, k)
  {
    var s, n := lead + ("\"role\" :" + rest), |lead|;
    assert forall i :: n <= i < n + 8 ==> s[i] == "\"role\" :"[i - n];
    if k == n {
      if n + 6 < |s| {
        Differs(s, ROLE_KEY, k, 6);
      }
    } else if k == n + 5 {
      Differs(s, ROLE_KEY, k, 1);
    } else {
      Differs(s, ROLE_KEY, k, 0);
    }
  }

  // ----- message lists -----------------------------------------------------

  /** A message: the literal of its string content, if it has one, and the raw bytes
      around it. */
  datatype Message = Message(content: Option<Literal>, rest: string)

  /** What the scanners read off the bytes around the literal: the role, and whether the
      search for the content field reaches the literal; how json.Marshal compacts those
      bytes; and Unicode white space. */
  datatype View = View(role: string -> string, finds: string -> bool, compact: string -> string, space: char -> bool)

  /** A message as it enters the hash: the bytes of its content literal and the others. */
  datatype Keyed = Keyed(content: Option<string>, rest: string)

  predicate Dropped(v: View, m: Message)
  {
    v.role(m.rest) == "system" && Read(v, m) && Canonical.Blank(Meaning(m.content.value), v.space)
  }

  predicate Read(v: View, m: Message)
  {
    m.content.Some? && v.finds(m.rest)
  }

  predicate InCanonicalRole(v: View, rest: string)
  {
    v.role(rest) in {"system", "user", "assistant"}
  }

  /** The content of this message is canonicalized. */
  predicate Edited(v: View, m: Message)
  {
    InCanonicalRole(v, m.rest) && Read(v, m)
  }

  function CanonicalizeMessage(v: View, m: Message): Message
  {
    if Edited(v, m) then m.(content := Some(CanonicalLiteral(m.content.value))) else m
  }

  function Canonicalize(ms: seq<Message>, v: View): seq<Message>
  {
    if |ms| == 0 then []
    else (if Dropped(v, ms[0]) then [] else [CanonicalizeMessage(v, ms[0])]) + Canonicalize(ms[1..], v)
  }

  /** The final json.Marshal, which compacts the raw messages. */
  function Written(v: View, m: Message): Keyed
  {
    Keyed(if m.content.Some? then Some(PrintParts(Compacted(m.content.value))) else None, v.compact(m.rest))
  }

  /** The messages as they enter the hash. */
  function KeyForm(ms: seq<Message>, v: View): seq<Keyed>
  {
    var canonical := Canonicalize(ms, v);
    seq(|canonical|, i requires 0 <= i < |canonical| => Written(v, canonical[i]))
  }

  method CanonicalizeContent(l: Literal) returns (out: Literal, changed: bool)
    ensures out == CanonicalLiteral(l) && changed == Changed(l)
  {
    CanonicalLiteralIs(l);
    Canonical.FixedPoints(Meaning(l));
    out, changed := l, false;
    var text := Meaning(l);
    var canonical := Canonical.CanonicalizeString(text);
    if canonical != text {
      out := Marshalled(canonical);
      changed := true;
    }
  }

  lemma {:induction false} CanonicalizeSplit(a: seq<Message>, b: seq<Message>, v: View)
    ensures Canonicalize(a + b, v) == Canonicalize(a, v) + Canonicalize(b, v)
  {
    hide CanonicalizeMessage, Dropped;
    if |a| == 0 {
      assert a + b == b;
    } else {
      assert (a + b)[1..] == a[1..] + b;
      CanonicalizeSplit(a[1..], b, v);
    }
  }

  lemma CanonicalizeOne(m: Message, v: View)
    ensures Canonicalize([m], v) == if Dropped(v, m) then [] else [CanonicalizeMessage(v, m)]
  {
    hide CanonicalizeMessage, Dropped;
    assert [m][1..] == [];
    assert Canonicalize([], v) == [];
  }

  method Compress(ms: seq<Message>, v: View) returns (key: seq<Keyed>)
    ensures key == KeyForm(ms, v)
  {
    hide Dropped, CanonicalLiteral;
    var canonicalized: seq<Message> := [];
    for k := 0 to |ms|
      invariant canonicalized == Canonicalize(ms[..k], v)
    {
      assert ms[..k + 1] == ms[..k] + [ms[k]];
      CanonicalizeSplit(ms[..k], [ms[k]], v);
      CanonicalizeOne(ms[k], v);
      if Dropped(v, ms[k]) {
        continue;
      }
      var cm := ms[k];
      if Edited(v, cm) {
        var content, changed := CanonicalizeContent(cm.content.value);
        cm := cm.(content := Some(content));
      }
      canonicalized := canonicalized + [cm];
    }
    assert ms[..|ms|] == ms;
    key := seq(|canonicalized|, i requires 0 <= i < |canonicalized| => Written(v, canonicalized[i]));
  }

  lemma CanonicalMessageIsKept(m: Message, v: View)
    requires Canonical.IsSpaceClass(v.space) && !Dropped(v, m)
    ensures !Dropped(v, CanonicalizeMessage(v, m))
    ensures CanonicalizeMessage(v, CanonicalizeMessage(v, m)) == CanonicalizeMessage(v, m)
  {
    if Edited(v, m) {
      var l := m.content.value;
      CanonicalLiteralIdempotent(l);
      CanonicalLiteralIs(l);
      Canonical.CanonicalKeepsBlankness(Meaning(l), v.space);
      var w := Canonical.CanonicalizeString(Meaning(l));
      if Changed(l) && Canonical.Blank(Meaning(Spell(Marshal, w)), v.space) {
        MarshalledKeepsBlankness(w, v.space);
      }
    }
  }

  /** Canonicalizing a canonical list changes nothing. */
  lemma {:induction false} CanonicalizeIdempotent(ms: seq<Message>, v: View)
    requires Canonical.IsSpaceClass(v.space)
    ensures Canonicalize(Canonicalize(ms, v), v) == Canonicalize(ms, v)
  {
    hide CanonicalizeMessage, Dropped;
    if |ms| > 0 {
      var m, rest := ms[0], Canonicalize(ms[1..], v);
      CanonicalizeIdempotent(ms[1..], v);
      if Dropped(v, m) {
        assert Canonicalize(ms, v) == rest;
      } else {
        CanonicalMessageIsKept(m, v);
        assert ([CanonicalizeMessage(v, m)] + rest)[1..] == rest;
      }
    }
  }

  lemma DroppedByReading(v: View, m: Message)
    ensures Dropped(v, m) <==>
              && v.role(m.rest) == "system" && v.finds(m.rest) && m.content.Some?
              && AllBlank(Meaning(m.content.value), v)
  {
    hide Meaning;
    if m.content.Some? {
      var s := Meaning(m.content.value);
      assert AllBlank(s, v) <==> Canonical.Blank(s, v.space);
    }
  }

  predicate AllBlank(s: string, v: View)
  {
    forall i :: 0 <= i < |s| ==> v.space(s[i])
  }

  /** A message inserted anywhere is invisible exactly when it reads as a system message
      with nothing but white space in its content. */
  lemma BlankSystemIsInvisible(a: seq<Message>, m: Message, b: seq<Message>, v: View)
    ensures KeyForm(a + [m] + b, v) == KeyForm(a + b, v) <==>
              && v.role(m.rest) == "system" && v.finds(m.rest) && m.content.Some?
              && AllBlank(Meaning(m.content.value), v)
  {
    DroppedByReading(v, m);
    hide Canonicalize, Dropped, Written;
    CanonicalizeSplit(a + [m], b, v);
    CanonicalizeSplit(a, [m], v);
    CanonicalizeSplit(a, b, v);
    CanonicalizeOne(m, v);
    assert Canonicalize(a, v) + [] == Canonicalize(a, v);
    assert |KeyForm(a + [m] + b, v)| == |KeyForm(a + b, v)| + if Dropped(v, m) then 0 else 1;
  }

  /** The key of a list is the keys of its parts in order. */
  lemma KeyOfList(a: seq<Message>, b: seq<Message>, v: View)
    ensures KeyForm(a + b, v) == KeyForm(a, v) + KeyForm(b, v)
  {
    hide Canonicalize, Written;
    CanonicalizeSplit(a, b, v);
  }

  /** The bytes of one message in the key: the content is written anew exactly when the
      role reads system, user or assistant, the field scan reaches it, and its text is not
      canonical; everything is compacted. */
  lemma KeyOfMessage(m: Message, v: View)
    requires !Dropped(v, m)
    ensures KeyForm([m], v) ==
            [Keyed(match m.content
                   case None => None
                   case Some(l) =>
                     var role, text := v.role(m.rest), Meaning(l);
                     var anew := (role == "system" || role == "user" || role == "assistant")
                                 && v.finds(m.rest) && !Canonical.IsCanonical(text);
                     Some(PrintParts(if anew then Marshalled(Canonical.CanonicalizeString(text)) else Compacted(l))),
                   v.compact(m.rest))]
  {
    CanonicalizeOne(m, v);
    if m.content.Some? {
      CanonicalLiteralIs(m.content.value);
      CompactedMarshalled(Canonical.CanonicalizeString(Meaning(m.content.value)));
    }
    hide CanonicalLiteral, Compacted, Canonical.CanonicalizeString, Canonical.IsCanonical, Meaning;
    assert KeyForm([m], v) == [Written(v, CanonicalizeMessage(v, m))];
  }

  /** The messages that are not dropped. */
  function Visible(ms: seq<Message>, v: View): seq<Message>
  {
    if |ms| == 0 then []
    else (if Dropped(v, ms[0]) then [] else [ms[0]]) + Visible(ms[1..], v)
  }

  lemma {:induction false} CanonicalOfVisible(ms: seq<Message>, v: View)
    ensures |Canonicalize(ms, v)| == |Visible(ms, v)|
    ensures forall k :: 0 <= k < |Visible(ms, v)| ==>
              Canonicalize(ms, v)[k] == CanonicalizeMessage(v, Visible(ms, v)[k])
  {
    hide CanonicalizeMessage, Dropped;
    if |ms| > 0 {
      CanonicalOfVisible(ms[1..], v);
    }
  }

  // ----- who shares a key --------------------------------------------------

  /** The two messages become the same bytes of the key. Their roles are read before
      compaction, so one of them may be canonicalized and the other kept. */
  predicate SameForm(v: View, a: Message, b: Message)
  {
    && v.compact(a.rest) == v.compact(b.rest) && a.content.Some? == b.content.Some?
    && (a.content.Some? ==> FormAs(Edited(v, a), a.content.value) == FormAs(Edited(v, b), b.content.value))
  }

  lemma SameFormIsSameBytes(v: View, a: Message, b: Message)
    ensures Written(v, CanonicalizeMessage(v, a)) == Written(v, CanonicalizeMessage(v, b)) <==> SameForm(v, a, b)
  {
    hide CanonicalLiteral, Compacted;
    if a.content.Some? && b.content.Some? {
      SameBytesIffSameParts(FormAs(Edited(v, a), a.content.value), FormAs(Edited(v, b), b.content.value));
    }
  }

  /** Two lists share a key form exactly when their messages, blank system ones aside,
      do so one by one. */
  lemma {:induction false} SameKeyIffSameForms(a: seq<Message>, b: seq<Message>, v: View)
    ensures KeyForm(a, v) == KeyForm(b, v) <==>
              && |Visible(a, v)| == |Visible(b, v)|
              && forall k :: 0 <= k < |Visible(a, v)| ==> SameForm(v, Visible(a, v)[k], Visible(b, v)[k])
  {
    CanonicalOfVisible(a, v);
    CanonicalOfVisible(b, v);
    hide Canonicalize, Visible, CanonicalizeMessage, SameForm, Written;
    var x, y := Visible(a, v), Visible(b, v);
    forall k | 0 <= k < |x| && k < |y|
      ensures KeyForm(a, v)[k] == KeyForm(b, v)[k] <==> SameForm(v, x[k], y[k])
    {
      SameFormIsSameBytes(v, x[k], y[k]);
    }
    if |x| == |y| && forall k :: 0 <= k < |x| ==> SameForm(v, x[k], y[k]) {
      assert forall k :: 0 <= k < |x| ==> KeyForm(a, v)[k] == KeyForm(b, v)[k];
    }
  }

  /** The same bytes around contents that agree: up to white-space edits where both are
      canonicalized, an edited one with the canonical text of the other where one is, and
      to the letter where none is. */
  ghost predicate SameUpToWhitespace(v: View, a: Message, b: Message)
  {
    && v.compact(a.rest) == v.compact(b.rest) && a.content.Some? == b.content.Some?
    && (a.content.Some? ==>
          var s, t := Meaning(a.content.value), Meaning(b.content.value);
          if Edited(v, a) || Edited(v, b) then
            && Canonical.Linked(s, t)
            && (Edited(v, a) || Canonical.IsCanonical(s)) && (Edited(v, b) || Canonical.IsCanonical(t))
          else Compacted(a.content.value) == Compacted(b.content.value))
  }

  predicate PlainContent(m: Message)
  {
    m.content.Some? ==> PlainlySpelled(m.content.value)
  }

  predicate NoUnicodeContent(m: Message)
  {
    m.content.Some? ==> NoUnicode(m.content.value)
  }

  /** A kept literal beside an edited one. */
  lemma KeptBesideEdited(kept: Literal, edited: Literal)
    ensures PlainlySpelled(kept) && PlainlySpelled(edited) ==>
              (FormAs(false, kept) == FormAs(true, edited) <==>
                Canonical.Linked(Meaning(kept), Meaning(edited)) && Canonical.IsCanonical(Meaning(kept)))
    ensures NoUnicode(kept) && NoUnicode(edited) && FormAs(false, kept) == FormAs(true, edited) ==>
              Canonical.Linked(Meaning(kept), Meaning(edited)) && Canonical.IsCanonical(Meaning(kept))
  {
    hide Meaning, Canonical.Linked, Canonical.IsCanonical, Canonical.CanonicalizeString, PlainlySpelled, NoUnicode,
         CanonicalLiteral, Compacted;
    var s, t := Meaning(kept), Meaning(edited);
    Canonical.SameKeyIffLinked(s, t);
    Canonical.FixedPoints(s);
    Canonical.FixedPoints(t);
    CanonicalLiteralIs(edited);
    CompactedMarshalled(Canonical.CanonicalizeString(t));
    if PlainlySpelled(kept) && PlainlySpelled(edited) {
      SpellingIsExact(kept);
      PlainlySpelledForm(edited);
      if Marshalled(s) == Marshalled(Canonical.CanonicalizeString(t)) {
        MarshalledIsInjective(s, Canonical.CanonicalizeString(t));
      }
    }
    if NoUnicode(kept) && NoUnicode(edited) && FormAs(false, kept) == FormAs(true, edited) {
      if Changed(edited) {
        MarshalledSays(kept, Canonical.CanonicalizeString(t));
      } else {
        SpelledAlike(kept, edited);
        ChangedIs(edited);
      }
    }
  }

  /** With plainly spelled contents a shared form is sameness up to white space; without
      \uXXXX it still implies it. */
  lemma {:induction false} MessagesAgree(v: View, a: Message, b: Message)
    ensures PlainContent(a) && PlainContent(b) ==> (SameForm(v, a, b) <==> SameUpToWhitespace(v, a, b))
    ensures NoUnicodeContent(a) && NoUnicodeContent(b) && SameForm(v, a, b) ==> SameUpToWhitespace(v, a, b)
  {
    hide CanonicalLiteral, Compacted, Canonical.Linked, Meaning, PlainlySpelled, NoUnicode, Edited;
    if a.content.Some? && b.content.Some? {
      var l, r := a.content.value, b.content.value;
      if Edited(v, a) && Edited(v, b) {
        BothEdited(l, r);
      } else if Edited(v, a) {
        KeptBesideEdited(r, l);
        LinkedEitherWay(Meaning(l), Meaning(r));
      } else if Edited(v, b) {
        KeptBesideEdited(l, r);
      }
    }
  }

  lemma BothEdited(l: Literal, r: Literal)
    ensures PlainlySpelled(l) && PlainlySpelled(r) ==>
              (FormAs(true, l) == FormAs(true, r) <==> Canonical.Linked(Meaning(l), Meaning(r)))
    ensures NoUnicode(l) && NoUnicode(r) && FormAs(true, l) == FormAs(true, r) ==>
              Canonical.Linked(Meaning(l), Meaning(r))
  {
    hide CanonicalLiteral, Compacted, Canonical.Linked, Meaning, PlainlySpelled, NoUnicode;
    if PlainlySpelled(l) && PlainlySpelled(r) {
      PlainlySpelledShareIff(l, r);
    }
    if NoUnicode(l) && NoUnicode(r) && FormAs(true, l) == FormAs(true, r) {
      assert SharesForm(l, r);
      SharedFormsAreLinked(l, r);
    }
  }

  lemma LinkedEitherWay(s: string, t: string)
    ensures Canonical.Linked(s, t) <==> Canonical.Linked(t, s)
  {
    hide Canonical.Linked;
    if Canonical.Linked(s, t) {
      Canonical.LinkedSymmetric(s, t);
    }
    if Canonical.Linked(t, s) {
      Canonical.LinkedSymmetric(t, s);
    }
  }

  /** Plainly spelled lists share a key form exactly when, blank system messages aside,
      they are the same up to white space message by message. */
  lemma {:induction false} PlainListsShareKeyIff(a: seq<Message>, b: seq<Message>, v: View)
    requires forall m :: m in Visible(a, v) + Visible(b, v) ==> PlainContent(m)
    ensures KeyForm(a, v) == KeyForm(b, v) <==>
              && |Visible(a, v)| == |Visible(b, v)|
              && forall k :: 0 <= k < |Visible(a, v)| ==>
                   SameUpToWhitespace(v, Visible(a, v)[k], Visible(b, v)[k])
  {
    SameKeyIffSameForms(a, b, v);
    hide KeyForm, Visible, SameForm, SameUpToWhitespace, PlainContent;
    var x, y := Visible(a, v), Visible(b, v);
    forall k | 0 <= k < |x| && k < |y|
      ensures SameForm(v, x[k], y[k]) <==> SameUpToWhitespace(v, x[k], y[k])
    {
      assert x[k] in x + y && y[k] in x + y;
      MessagesAgree(v, x[k], y[k]);
    }
  }

  // ----- when a key stands for one text ------------------------------------

  /** The same bytes around literals that read alike. */
  ghost predicate MessagesReadAlike(v: View, a: Message, b: Message)
  {
    && v.compact(a.rest) == v.compact(b.rest) && a.content.Some? == b.content.Some?
    && (a.content.Some? ==> ReadsAlike(a.content.value, b.content.value))
  }

  ghost predicate ListsReadAlike(a: seq<Message>, b: seq<Message>, v: View)
  {
    && |Visible(a, v)| == |Visible(b, v)|
    && forall k :: 0 <= k < |Visible(a, v)| ==> MessagesReadAlike(v, Visible(a, v)[k], Visible(b, v)[k])
  }

  /** Some message whose other bytes are compacted to the same is canonicalized. */
  ghost predicate Editable(v: View, rest: string)
  {
    exists other :: v.compact(other) == v.compact(rest) && InCanonicalRole(v, other) && v.finds(other)
  }

  ghost predicate AmbiguousMessage(v: View, m: Message)
  {
    m.content.Some? && Ambiguous(FormAs(Edited(v, m), m.content.value)) && Editable(v, m.rest)
  }

  /** Of a message that is canonicalized, this can be told from its literal: where the
      text changes, or the literal is spelled as json.Marshal spells it, by whether the
      decoded text spells out a \uXXXX. */
  lemma EditedIsAmbiguousIff(v: View, m: Message)
    requires Edited(v, m)
    ensures AmbiguousMessage(v, m) <==> Ambiguous(FormAs(true, m.content.value))
    ensures Changed(m.content.value) || PlainContent(m) ==>
              (AmbiguousMessage(v, m) <==> SaysEscape(Meaning(m.content.value)))
  {
    hide Ambiguous, CanonicalLiteral, Compacted, Changed, PlainlySpelled, SaysEscape, Meaning;
    assert Editable(v, m.rest);
    AmbiguousIff(m.content.value);
  }

  lemma SameFormReadsAlike(v: View, a: Message, b: Message)
    requires SameForm(v, a, b) && !AmbiguousMessage(v, a)
    ensures MessagesReadAlike(v, a, b)
  {
    hide Ambiguous, CanonicalLiteral, Compacted, ReadsAlike, Denoted;
    if a.content.Some? {
      var l, r := a.content.value, b.content.value;
      if !Ambiguous(FormAs(Edited(v, a), l)) {
        SharedIsAlike(Edited(v, a), l, Edited(v, b), r);
      } else {
        assert !Edited(v, a) && !Edited(v, b);
        CompactedDenotes(l);
        CompactedDenotes(r);
        assert ReadsAlike(l, r) by { AlikeIfEqual(l, r); }
      }
    }
  }

  lemma AlikeIfEqual(l: Literal, r: Literal)
    requires Denoted(l) == Denoted(r)
    ensures ReadsAlike(l, r)
  {
  }

  /** An ambiguous message shares its bytes with one that reads otherwise. */
  lemma OtherMessage(v: View, m: Message) returns (n: Message)
    requires Canonical.IsSpaceClass(v.space) && AmbiguousMessage(v, m)
    ensures SameForm(v, m, n) && !Dropped(v, n) && !MessagesReadAlike(v, m, n)
  {
    hide Ambiguous, ReadsAlike, CanonicalLiteral, Compacted, SaysEscape, Meaning, Canonical.Blank;
    var other :| v.compact(other) == v.compact(m.rest) && InCanonicalRole(v, other) && v.finds(other);
    var l := OtherText(FormAs(Edited(v, m), m.content.value), m.content.value);
    n := Message(Some(l), other);
    EscapeIsNoBlank(Meaning(l), v.space);
  }

  lemma EscapeIsNoBlank(s: string, space: char -> bool)
    requires Canonical.IsSpaceClass(space) && SaysEscape(s)
    ensures !Canonical.Blank(s, space)
  {
    var i :| 0 <= i < |s| && EscapeAt(s, i);
    assert s[i] == '\\';
  }

  lemma {:induction false} VisibleIsNotDropped(ms: seq<Message>, v: View)
    ensures forall m :: m in Visible(ms, v) ==> !Dropped(v, m)
  {
    hide Dropped;
    if |ms| > 0 {
      VisibleIsNotDropped(ms[1..], v);
    }
  }

  lemma {:induction false} AllVisible(ms: seq<Message>, v: View)
    requires forall m :: m in ms ==> !Dropped(v, m)
    ensures Visible(ms, v) == ms
  {
    hide Dropped;
    if |ms| > 0 {
      AllVisible(ms[1..], v);
      assert ms == [ms[0]] + ms[1..];
    }
  }

  /** All lists that share their key with this one read like it, up to white space and
      blank system messages, exactly when none of its messages is ambiguous. */
  lemma OneKeyOneTextIff(a: seq<Message>, v: View)
    requires Canonical.IsSpaceClass(v.space)
    ensures (forall b :: KeyForm(a, v) == KeyForm(b, v) ==> ListsReadAlike(a, b, v))
            <==> (forall m :: m in Visible(a, v) ==> !AmbiguousMessage(v, m))
  {
    hide KeyForm, AmbiguousMessage, ListsReadAlike;
    if forall m :: m in Visible(a, v) ==> !AmbiguousMessage(v, m) {
      forall b | KeyForm(a, v) == KeyForm(b, v)
        ensures ListsReadAlike(a, b, v)
      {
        SameKeyReadsAlike(a, b, v);
      }
    } else {
      var m :| m in Visible(a, v) && AmbiguousMessage(v, m);
      var b := OtherList(a, m, v);
    }
  }

  lemma SameKeyReadsAlike(a: seq<Message>, b: seq<Message>, v: View)
    requires KeyForm(a, v) == KeyForm(b, v) && forall m :: m in Visible(a, v) ==> !AmbiguousMessage(v, m)
    ensures ListsReadAlike(a, b, v)
  {
    hide KeyForm, AmbiguousMessage, MessagesReadAlike, SameForm, Visible;
    SameKeyIffSameForms(a, b, v);
    forall k | 0 <= k < |Visible(a, v)|
      ensures MessagesReadAlike(v, Visible(a, v)[k], Visible(b, v)[k])
    {
      SameFormReadsAlike(v, Visible(a, v)[k], Visible(b, v)[k]);
    }
  }

  /** With an ambiguous message, another list that shares the key. */
  lemma OtherList(a: seq<Message>, m: Message, v: View) returns (b: seq<Message>)
    requires Canonical.IsSpaceClass(v.space) && m in Visible(a, v) && AmbiguousMessage(v, m)
    ensures KeyForm(a, v) == KeyForm(b, v) && !ListsReadAlike(a, b, v)
  {
    hide KeyForm, AmbiguousMessage, MessagesReadAlike, SameForm, Visible, Dropped, Canonical.IsSpaceClass;
    var x := Visible(a, v);
    var k :| 0 <= k < |x| && x[k] == m;
    var n := OtherMessage(v, m);
    b := x[k := n];
    VisibleIsNotDropped(a, v);
    AllVisible(b, v);
    SameKeyIffSameForms(a, b, v);
    forall i | 0 <= i < |x|
      ensures SameForm(v, x[i], b[i])
    {
      if i != k {
        SameFormReflexive(v, x[i]);
      }
    }
    assert b[k] == n && !MessagesReadAlike(v, x[k], b[k]);
  }

  lemma SameFormReflexive(v: View, m: Message)
    ensures SameForm(v, m, m)
  {
  }
}
