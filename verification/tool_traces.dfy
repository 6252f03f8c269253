// What the log compressor does to a payload, told by places in it: which messages it
// changes, what stands in them afterwards, and that every other byte stays.
module ToolTraces {
  import opened Text
  import opened JsonScan
  import opened ToolMessages
  import opened SystemContent

  // ----- fields by place ---------------------------------------------------

  predicate BlankBetween(s: string, i: int, j: int)
  {
    0 <= i <= j <= |s| && forall k :: i <= k < j ==> s[k] == ' ' || s[k] == '\t'
  }

  /** The first `"key"` of the object, a colon and the quote at `o`, with nothing but
      blanks and tabs in between. */
  ghost predicate OpensAt(obj: string, key: string, o: int)
  {
    exists i :: OpensWith(obj, key, i, o)
  }

  ghost predicate OpensWith(obj: string, key: string, i: int, o: int)
  {
    var at := IndexOf(obj, "\"" + key + "\"");
    && at >= 0 && BlankBetween(obj, at + |key| + 2, i) && i < |obj| && obj[i] == ':'
    && BlankBetween(obj, i + 1, o) && o < |obj| && obj[o] == '"'
  }

  lemma {:induction false} BlanksEnd(s: string, i: nat, j: nat)
    requires i <= |s|
    ensures BlankBetween(s, i, SkipBlanks(s, i))
    ensures BlankBetween(s, i, j) && j < |s| && s[j] != ' ' && s[j] != '\t' ==> SkipBlanks(s, i) == j
    ensures SkipBlanks(s, i) < |s| ==> s[SkipBlanks(s, i)] != ' ' && s[SkipBlanks(s, i)] != '\t'
    decreases |s| - i
  {
    if i < |s| && (s[i] == ' ' || s[i] == '\t') {
      BlanksEnd(s, i + 1, j);
    }
  }

  lemma OpenQuoteByPlace(obj: string, key: string, o: nat)
    ensures OpenQuote(obj, key) == Some(o) <==> OpensAt(obj, key, o)
  {
    if OpenQuote(obj, key) == Some(o) {
      QuoteOpens(obj, key, o);
    }
    if i :| OpensWith(obj, key, i, o) {
      OpensQuote(obj, key, i, o);
    }
  }

  lemma QuoteOpens(obj: string, key: string, o: nat)
    requires OpenQuote(obj, key) == Some(o)
    ensures OpensAt(obj, key, o)
  {
    hide IndexOf, SkipBlanks, BlankBetween;
    var n := IndexOf(obj, "\"" + key + "\"") + |key| + 2;
    var i := SkipBlanks(obj, n);
    BlanksEnd(obj, n, 0);
    BlanksEnd(obj, i + 1, 0);
    assert OpensWith(obj, key, i, o);
  }

  lemma OpensQuote(obj: string, key: string, i: nat, o: nat)
    requires OpensWith(obj, key, i, o)
    ensures OpenQuote(obj, key) == Some(o)
  {
    hide IndexOf, SkipBlanks;
    BlanksEnd(obj, IndexOf(obj, "\"" + key + "\"") + |key| + 2, i);
    BlanksEnd(obj, i + 1, o);
  }

  /** The first role literal of the object reads `role`. */
  ghost predicate SaysRole(obj: string, role: string)
  {
    exists o :: 0 <= o && o + 2 + |role| <= |obj| && OpensAt(obj, "role", o)
                && obj[o..o + 2 + |role|] == "\"" + role + "\""
  }

  ghost predicate SaysTool(obj: string)
  {
    SaysRole(obj, "tool")
  }

  lemma RoleByPlace(obj: string, role: string)
    requires forall i :: 0 <= i < |role| ==> role[i] != '"'
    ensures HasRole(obj, role) <==> SaysRole(obj, role)
  {
    hide IndexOf, OpenQuote, OpensAt;
    if HasRole(obj, role) {
      var o := OpenQuote(obj, "role").value;
      OpenQuoteByPlace(obj, "role", o);
      WordIs(obj[o + 1..], role);
      WordAt(obj, role, o);
    }
    if o :| 0 <= o && o + 2 + |role| <= |obj| && OpensAt(obj, "role", o)
            && obj[o..o + 2 + |role|] == "\"" + role + "\"" {
      OpenQuoteByPlace(obj, "role", o);
      WordAt(obj, role, o);
      WordIs(obj[o + 1..], role);
    }
  }

  lemma WordAt(obj: string, role: string, o: nat)
    requires o < |obj| && obj[o] == '"'
    ensures |role| < |obj[o + 1..]| && obj[o + 1..][..|role| + 1] == role + "\"" <==>
            o + 2 + |role| <= |obj| && obj[o..o + 2 + |role|] == "\"" + role + "\""
  {
    if o + 2 + |role| <= |obj| {
      var x, y := obj[o + 1..][..|role| + 1], obj[o..o + 2 + |role|];
      assert y == [obj[o]] + x;
      assert ("\"" + role + "\"") == [obj[o]] + (role + "\"");
      assert y[1..] == x && ("\"" + role + "\"")[1..] == role + "\"";
    }
  }

  lemma ToolByPlace(obj: string)
    ensures IsTool(obj) <==> SaysTool(obj)
  {
    RoleByPlace(obj, "tool");
  }

  lemma WordIs(s: string, word: string)
    requires forall i :: 0 <= i < |word| ==> word[i] != '"'
    ensures var n := IndexOf(s, "\"");
            n >= 0 && s[..n] == word <==> |word| < |s| && s[..|word| + 1] == word + "\""
  {
    IndexOfIsLeast(s, "\"");
    var n := IndexOf(s, "\"");
    if n >= 0 {
      assert s[n..n + 1][0] == '"';
      if s[..n] == word {
        assert s[..n + 1] == word + "\"";
      }
    }
    if |word| < |s| && s[..|word| + 1] == word + "\"" {
      var t := s[..|word| + 1];
      assert forall i :: 0 <= i < |word| ==> s[i] == t[i] == word[i];
      assert s[|word|] == t[|word|] == '"';
      NextQuote(s, |word|);
      assert s[..|word|] == t[..|word|] == word;
    }
  }

  // ----- one message -------------------------------------------------------

  /** The closing quote of a legal literal is its own. */
  lemma {:induction false} CloseQuoteOfParts(parts: seq<Part>, rest: string)
    requires LegalParts(parts)
    ensures CloseQuote(PrintParts(parts) + "\"" + rest) == Some(|PrintParts(parts)|)
  {
    if |parts| == 0 {
      QuoteFirst(rest);
    } else {
      hide CloseQuote;
      var x, t := PrintPart(parts[0]), PrintParts(parts[1..]);
      CloseQuoteOfParts(parts[1..], rest);
      assert x + t + "\"" + rest == x + (t + "\"" + rest);
      CloseQuotePart(parts[0], t + "\"" + rest);
    }
  }

  lemma CloseQuotePart(p: Part, t: string)
    requires LegalPart(p)
    ensures CloseQuote(PrintPart(p) + t) == Shift(|PrintPart(p)|, CloseQuote(t))
  {
    hide CloseQuote;
    match p
    case Plain(c) => CloseQuotePlain(c, t);
    case Escaped(c) => CloseQuoteEscape(c, t);
    case Unicode(hex) =>
      CloseQuoteEscape('u', hex + t);
      CloseQuoteRun(hex, t);
      assert PrintPart(p) + t == ['\\', 'u'] + (hex + t);
  }

  /** `obj` with `"content"` first at the end of `x`, blanks `a` and `b` around the colon,
      and the literal `body` in front of `rest`. */
  function WithContent(x: string, a: string, b: string, body: string, rest: string): string
  {
    x + "\"content\"" + a + ":" + b + "\"" + (body + "\"" + rest)
  }

  lemma ContentIsFound(x: string, a: string, b: string, parts: seq<Part>, rest: string)
    requires Blanks(a) && Blanks(b) && LegalParts(parts)
    requires IndexOf(WithContent(x, a, b, PrintParts(parts), rest), "\"content\"") == |x|
    ensures var obj := WithContent(x, a, b, PrintParts(parts), rest);
            var o := |x + "\"content\"" + a + ":" + b|;
            && StringField(obj, "content") == Some((o, o + 1 + |PrintParts(parts)|))
            && FieldText(obj, (o, o + 1 + |PrintParts(parts)|)) == Meaning(parts)
            && obj[..o] == x + "\"content\"" + a + ":" + b
            && obj[o + 1 + |PrintParts(parts)| + 1..] == rest
  {
    hide IndexOf, OpensAt, StringField, FieldText, PrintParts, Meaning;
    var body := PrintParts(parts);
    var front := x + "\"content\"" + a + ":" + b;
    LiteralSlices(front, body, rest);
    ContentOpens(x, a, b, body, rest);
    FieldFound(WithContent(x, a, b, body, rest), |front|, parts, rest);
  }

  lemma FieldFound(obj: string, o: nat, parts: seq<Part>, rest: string)
    requires LegalParts(parts) && OpensAt(obj, "content", o)
    requires o + 1 + |PrintParts(parts)| < |obj| && obj[o + 1..] == PrintParts(parts) + "\"" + rest
    ensures StringField(obj, "content") == Some((o, o + 1 + |PrintParts(parts)|))
    ensures FieldText(obj, (o, o + 1 + |PrintParts(parts)|)) == Meaning(parts)
  {
    hide OpensAt, OpenQuote, CloseQuote, PrintParts, Unescape, Meaning;
    OpenQuoteByPlace(obj, "content", o);
    CloseQuoteOfParts(parts, rest);
    DecodersAgree(parts);
    assert obj[o + 1..][..|PrintParts(parts)|] == PrintParts(parts);
    assert obj[o + 1..o + 1 + |PrintParts(parts)|] == obj[o + 1..][..|PrintParts(parts)|];
  }

  lemma LiteralSlices(front: string, body: string, rest: string)
    ensures var obj := front + ("\"" + (body + "\"" + rest));
            var o := |front|;
            && obj == front + "\"" + (body + "\"" + rest) && o + 1 + |body| < |obj|
            && obj[o] == '"' && obj[o + 1..] == body + "\"" + rest && obj[o + 1..o + 1 + |body|] == body
            && obj[..o] == front && obj[o + 1 + |body| + 1..] == rest
  {
  }

  lemma ContentOpens(x: string, a: string, b: string, body: string, rest: string)
    requires Blanks(a) && Blanks(b)
    requires IndexOf(WithContent(x, a, b, body, rest), "\"content\"") == |x|
    ensures OpensAt(WithContent(x, a, b, body, rest), "content", |x + "\"content\"" + a + ":" + b|)
  {
    hide IndexOf;
    var obj := WithContent(x, a, b, body, rest);
    var n := |x| + 9;
    var i := n + |a|;
    var o := i + 1 + |b|;
    assert "\"" + "content" + "\"" == "\"content\"";
    assert obj == (x + "\"content\"") + (a + (":" + (b + ("\"" + (body + "\"" + rest)))));
    assert forall k :: 0 <= k < |a| ==> obj[n + k] == a[k];
    assert obj[i] == ':';
    assert forall k :: 0 <= k < |b| ==> obj[i + 1 + k] == b[k];
    assert obj[o] == '"';
    assert forall k :: n <= k < i ==> obj[k] == a[k - n];
    assert forall k :: i + 1 <= k < o ==> obj[k] == b[k - i - 1];
    assert OpensWith(obj, "content", i, o);
  }

  /** A message that does not say tool is not touched, nor is one without a content
      literal; of any other only the literal changes, to the encoding of the compressed
      text, and only if that text is another. */
  lemma MessageByPlace(x: string, a: string, b: string, parts: seq<Part>, rest: string, compress: Compressor)
    requires Blanks(a) && Blanks(b) && LegalParts(parts)
    requires IndexOf(WithContent(x, a, b, PrintParts(parts), rest), "\"content\"") == |x|
    ensures var obj := WithContent(x, a, b, PrintParts(parts), rest);
            Rewrite(obj, compress) ==
            if SaysTool(obj) && compress(Meaning(parts)) != Meaning(parts) then
              WithContent(x, a, b, EncodeBody(compress(Meaning(parts))), rest)
            else obj
  {
    hide StringField, SaysTool, IsTool, FieldText, IndexOf, PrintParts, Meaning, EncodeBody, Blanks, LegalParts;
    var obj := WithContent(x, a, b, PrintParts(parts), rest);
    ToolByPlace(obj);
    ContentIsFound(x, a, b, parts, rest);
    SplicedIs(x, a, b, EncodeBody(compress(Meaning(parts))), rest);
  }

  lemma SplicedIs(x: string, a: string, b: string, body: string, rest: string)
    ensures (x + "\"content\"" + a + ":" + b) + ("\"" + body + "\"") + rest == WithContent(x, a, b, body, rest)
  {
  }

  lemma OtherMessagesStay(obj: string, compress: Compressor)
    requires !SaysTool(obj) || forall o :: !OpensAt(obj, "content", o)
    ensures Rewrite(obj, compress) == obj
  {
    hide SaysTool, IsTool, OpensAt, OpenQuote;
    ToolByPlace(obj);
    if OpenQuote(obj, "content").Some? {
      OpenQuoteByPlace(obj, "content", OpenQuote(obj, "content").value);
    }
  }

  /** The system prompt is read likewise. */
  lemma ContentIsRead(x: string, a: string, b: string, parts: seq<Part>, rest: string)
    requires Blanks(a) && Blanks(b) && LegalParts(parts)
    requires IndexOf(WithContent(x, a, b, PrintParts(parts), rest), "\"content\"") == |x|
    ensures FieldValue(WithContent(x, a, b, PrintParts(parts), rest), "content") == Some(Meaning(parts))
  {
    hide IndexOf, OpenQuote, Decode, PrintParts, Meaning, OpensAt;
    var body := PrintParts(parts);
    var front := x + "\"content\"" + a + ":" + b;
    var obj := WithContent(x, a, b, body, rest);
    ContentOpens(x, a, b, body, rest);
    OpenQuoteByPlace(obj, "content", |front|);
    assert obj == front + ("\"" + (body + "\"" + rest));
    assert obj[|front| + 1..] == body + "\"" + rest;
    LegalLiteralDecodes(parts, rest);
  }

  // ----- a payload ---------------------------------------------------------

  lemma {:induction false} SpaceIsSkipped(s: string, i: nat, j: nat)
    requires i <= j <= |s| && (forall k :: i <= k < j ==> Space(s[k])) && (j < |s| ==> !Space(s[j]))
    ensures SkipSpace(s, i) == j
    decreases j - i
  {
    if i < j {
      SpaceIsSkipped(s, i + 1, j);
    }
  }

  /** The array is found behind the first "messages" key, whatever the white space. */
  lemma ArrayIsFound(pre: string, a: string, b: string, list: string)
    requires IndexOf(pre + "\"messages\"" + a + ":" + b + "[" + list, "\"messages\"") == |pre|
    requires IsSpace(a) && IsSpace(b)
    ensures var payload := pre + "\"messages\"" + a + ":" + b + "[" + list;
            var start := |pre + "\"messages\"" + a + ":" + b + "["|;
            && ArrayBody(payload) == Some(start) && payload[start..] == list
            && payload[..start] == pre + "\"messages\"" + a + ":" + b + "["
  {
    hide IndexOf, SkipSpace, IsSpace;
    var front := pre + "\"messages\"" + a + ":" + b + "[";
    var payload := front + list;
    var n := |pre| + 10;
    var i := n + |a|;
    var j := i + 1 + |b|;
    Gaps(pre, a, b, list);
    SpaceIsSkipped(payload, n, i);
    SpaceIsSkipped(payload, i + 1, j);
    assert |front| == j + 1;
    assert payload[j + 1..] == list;
  }

  predicate SpaceBetween(s: string, i: int, j: int)
  {
    0 <= i <= j <= |s| && forall k :: i <= k < j ==> Space(s[k])
  }

  /** Both walks start behind a bracket that white space and a colon join to the first
      "messages" key, and nowhere else. */
  ghost predicate ArrayAt(payload: string, i: int, start: int)
  {
    var at := IndexOf(payload, "\"messages\"");
    && at >= 0 && SpaceBetween(payload, at + 10, i) && i < |payload| && payload[i] == ':'
    && SpaceBetween(payload, i + 1, start - 1) && start <= |payload| && payload[start - 1] == '['
  }

  lemma {:induction false} SpaceEnds(s: string, i: nat, j: nat)
    requires i <= |s|
    ensures SpaceBetween(s, i, SkipSpace(s, i))
    ensures SpaceBetween(s, i, j) && j < |s| && !Space(s[j]) ==> SkipSpace(s, i) == j
    decreases |s| - i
  {
    if i < |s| && Space(s[i]) {
      SpaceEnds(s, i + 1, j);
    }
  }

  lemma ArrayByPlace(payload: string, start: nat)
    ensures ArrayBody(payload) == Some(start) <==> exists i :: ArrayAt(payload, i, start)
  {
    hide IndexOf, SkipSpace;
    var idx := IndexOf(payload, "\"messages\"");
    if idx >= 0 {
      var i := SkipSpace(payload, idx + 10);
      SpaceEnds(payload, idx + 10, i);
      if i < |payload| && payload[i] == ':' {
        SpaceEnds(payload, i + 1, 0);
        if ArrayBody(payload) == Some(start) {
          assert ArrayAt(payload, i, start);
        }
      }
      if k :| ArrayAt(payload, k, start) {
        SpaceEnds(payload, idx + 10, k);
        SpaceEnds(payload, k + 1, start - 1);
      }
    }
  }

  /** Any other payload comes back as it is. */
  lemma NoArrayNoChange(payload: string, compress: Compressor)
    requires forall i, start :: !ArrayAt(payload, i, start)
    ensures RewritePayload(payload, compress) == payload
  {
    hide ArrayAt, ArrayBody, Walk;
    if ArrayBody(payload).Some? {
      ArrayByPlace(payload, ArrayBody(payload).value);
    }
  }

  lemma Gaps(pre: string, a: string, b: string, list: string)
    requires IsSpace(a) && IsSpace(b)
    ensures var payload := pre + "\"messages\"" + a + ":" + b + "[" + list;
            var n := |pre| + 10;
            var i, j := n + |a|, n + |a| + 1 + |b|;
            && j < |payload| && payload[i] == ':' && payload[j] == '['
            && (forall k :: n <= k < i ==> Space(payload[k]))
            && (forall k :: i + 1 <= k < j ==> Space(payload[k]))
  {
    var payload := pre + "\"messages\"" + a + ":" + b + "[" + list;
    var n := |pre| + 10;
    var i, j := n + |a|, n + |a| + 1 + |b|;
    assert payload == (pre + "\"messages\"") + (a + (":" + (b + ("[" + list))));
    assert payload[i] == ':' && payload[j] == '[';
    assert forall k :: n <= k < i ==> payload[k] == a[k - n];
    assert forall k :: i + 1 <= k < j ==> payload[k] == b[k - i - 1];
  }

  /** In any payload whose first "messages" key introduces a legally printed list of
      objects, each of them is rewritten as above and no other byte changes. */
  lemma PayloadByPlace(pre: string, a: string, b: string, es: Elems, post: string, compress: Compressor)
    requires var list := PrintElems(es) + "]" + post;
             IndexOf(pre + "\"messages\"" + a + ":" + b + "[" + list, "\"messages\"") == |pre|
    requires IsSpace(a) && IsSpace(b) && LegalElems(es) && AllObjects(es)
    ensures RewritePayload(pre + "\"messages\"" + a + ":" + b + "[" + (PrintElems(es) + "]" + post), compress) ==
            pre + "\"messages\"" + a + ":" + b + "[" + (RewriteElems(es, compress) + "]" + post)
  {
    hide IndexOf, ArrayBody, Walk, PrintElems, RewriteElems, LegalElems, AllObjects;
    ArrayIsFound(pre, a, b, PrintElems(es) + "]" + post);
    WalkRewritesEachMessage(es, post, compress);
  }

  // ----- all content literals ----------------------------------------------

  /** The first content literal of a text: its decoded text is compressed, the bytes in
      front stay, and the rest is treated likewise. */
  lemma ContentByPlace(x: string, a: string, b: string, parts: seq<Part>, rest: string, compress: Compressor)
    requires Blanks(a) && Blanks(b) && LegalParts(parts)
    requires IndexOf(WithContent(x, a, b, PrintParts(parts), rest), "\"content\"") == |x|
    ensures RewriteContents(WithContent(x, a, b, PrintParts(parts), rest), compress) ==
            WithContent(x, a, b,
                        if compress(Meaning(parts)) == Meaning(parts) then PrintParts(parts)
                        else EncodeBody(compress(Meaning(parts))),
                        RewriteContents(rest, compress))
  {
    hide StringField, RewriteContents, FieldText;
    var body := PrintParts(parts);
    var s := WithContent(x, a, b, body, rest);
    ContentIsFound(x, a, b, parts, rest);
    ContentUnit(s, compress);
    var field := StringField(s, "content").value;
    assert s[field.0..field.1 + 1] == "\"" + body + "\"" by { LiteralOf(x, a, b, body, rest); }
    var text := if compress(Meaning(parts)) == Meaning(parts) then body else EncodeBody(compress(Meaning(parts)));
    SplicedIs(x, a, b, text, RewriteContents(rest, compress));
  }

  lemma LiteralOf(x: string, a: string, b: string, body: string, rest: string)
    ensures var o := |x + "\"content\"" + a + ":" + b|;
            var s := WithContent(x, a, b, body, rest);
            o + |body| + 2 <= |s| && s[o..o + 1 + |body| + 1] == "\"" + body + "\""
  {
    var front := x + "\"content\"" + a + ":" + b;
    var s := WithContent(x, a, b, body, rest);
    assert s == front + (("\"" + body + "\"") + rest);
  }

  /** A text without another content literal stays as it is. */
  lemma NoContentStays(s: string, compress: Compressor)
    requires forall o :: !OpensAt(s, "content", o)
    ensures RewriteContents(s, compress) == s
  {
    hide OpenQuote, OpensAt, CloseQuote;
    if OpenQuote(s, "content").Some? {
      OpenQuoteByPlace(s, "content", OpenQuote(s, "content").value);
    }
  }
}
