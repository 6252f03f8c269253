// Pulling the system prompt out of a raw payload: find the messages array, cut out its
// objects one by one, and decode the content string of the first system message.
module SystemContent {
  import opened Text
  import opened JsonScan
  import opened ToolMessages

  // ----- decoding a string field -------------------------------------------

  function Prefixed(x: string, r: Option<string>): Option<string>
  {
    match r
    case None => None
    case Some(y) => Some(x + y)
  }

  /** The text of the literal whose body starts `s`, or None when it does not end. */
  function Decode(s: string): Option<string>
    decreases |s|
  {
    if |s| == 0 then None
    else if s[0] == '"' then Some("")
    else if s[0] != '\\' then Prefixed([s[0]], Decode(s[1..]))
    else if |s| == 1 then None
    else if s[1] == 'u' then (if |s| < 6 then None else Prefixed(s[..6], Decode(s[6..])))
    else Prefixed(UnescapePair(s[1]), Decode(s[2..]))
  }

  function FieldValue(obj: string, key: string): Option<string>
  {
    match OpenQuote(obj, key)
    case None => None
    case Some(open) => Decode(obj[open + 1..])
  }

  lemma PrefixedTwice(out: string, x: string, r: Option<string>)
    ensures Prefixed(out, Prefixed(x, r)) == Prefixed(out + x, r) && Prefixed("", r) == r
  {
    if r.Some? {
      assert out + (x + r.value) == out + x + r.value && "" + r.value == r.value;
    }
  }

  method ReadLiteral(raw: string, from: nat) returns (text: Option<string>)
    requires from <= |raw|
    ensures text == Decode(raw[from..])
  {
    hide *;
    var b := "";
    var i := from;
    ghost var whole := Decode(raw[from..]);
    ghost var rest := whole;
    PrefixedTwice("", "", rest);
    while i < |raw|
      invariant from <= i <= |raw|
      invariant rest == Decode(raw[i..])
      invariant whole == Prefixed(b, rest)
      decreases |raw| - i
    {
      var c := raw[i];
      DecodeUnfold(raw, i);
      if c != '\\' {
        if c == '"' {
          EndOfLiteral(b);
          return Some(b);
        }
        rest := DecodeStep(raw, i, b, rest, [c], 1);
        b := b + [c];
        i := i + 1;
        continue;
      }
      if i + 1 >= |raw| {
        NoLiteral(b);
        return None;
      }
      var esc := raw[i + 1];
      if esc == 'u' {
        if i + 6 > |raw| {
          NoLiteral(b);
          return None;
        }
        rest := DecodeStep(raw, i, b, rest, raw[i..i + 6], 6);
        b := b + raw[i..i + 6];
        i := i + 6;
      } else {
        rest := DecodeStep(raw, i, b, rest, UnescapePair(esc), 2);
        b := b + UnescapePair(esc);
        i := i + 2;
      }
    }
    DecodeNothing();
    assert raw[i..] == "";
    NoLiteral(b);
    return None;
  }

  lemma EndOfLiteral(b: string)
    ensures Prefixed(b, Some("")) == Some(b)
  {
    assert b + "" == b;
  }

  lemma NoLiteral(b: string)
    ensures Prefixed(b, None) == None
  {
  }

  lemma DecodeNothing()
    ensures Decode("") == None
  {
  }

  /** What the decoder does at `i`. */
  lemma DecodeUnfold(raw: string, i: nat)
    requires i < |raw|
    ensures var d := Decode(raw[i..]);
            if raw[i] == '"' then d == Some("")
            else if raw[i] != '\\' then d == Prefixed([raw[i]], Decode(raw[i..][1..]))
            else if i + 1 == |raw| then d == None
            else if raw[i + 1] == 'u' then
              (if i + 6 > |raw| then d == None else d == Prefixed(raw[i..i + 6], Decode(raw[i..][6..])))
            else d == Prefixed(UnescapePair(raw[i + 1]), Decode(raw[i..][2..]))
  {
    hide UnescapePair, Prefixed;
    assert i + 6 <= |raw| ==> raw[i..][..6] == raw[i..i + 6];
  }

  lemma DecodeStep(raw: string, i: nat, b: string, rest: Option<string>, x: string, n: nat)
      returns (next: Option<string>)
    requires i + n <= |raw| && rest == Prefixed(x, Decode(raw[i..][n..]))
    ensures next == Decode(raw[i + n..]) && Prefixed(b, rest) == Prefixed(b + x, next)
  {
    hide Decode;
    assert raw[i..][n..] == raw[i + n..];
    next := Decode(raw[i + n..]);
    PrefixedTwice(b, x, next);
  }

  method ExtractStringField(raw: string, key: string) returns (text: Option<string>)
    ensures text == FieldValue(raw, key)
  {
    hide OpenQuote, Decode;
    var i, ok := FindOpenQuote(raw, key);
    if !ok {
      return None;
    }
    text := ReadLiteral(raw, i + 1);
  }

  function PartMeaning(p: Part): string
  {
    match p
    case Plain(c) => [c]
    case Escaped(c) => UnescapePair(c)
    case Unicode(hex) => ['\\', 'u'] + hex
  }

  /** What a legal literal says, with \uXXXX left as it is written. */
  function Meaning(parts: seq<Part>): string
  {
    if |parts| == 0 then "" else PartMeaning(parts[0]) + Meaning(parts[1..])
  }

  lemma DecodePart(p: Part, t: string)
    requires LegalPart(p)
    ensures Decode(PrintPart(p) + t) == Prefixed(PartMeaning(p), Decode(t))
  {
    var x := PrintPart(p);
    assert (x + t)[|x|..] == t;
    if p.Unicode? {
      assert (x + t)[..6] == x;
    }
  }

  /** Every legal literal is decoded to its meaning, whatever follows it. */
  lemma {:induction false} LegalLiteralDecodes(parts: seq<Part>, rest: string)
    requires LegalParts(parts)
    ensures Decode(PrintParts(parts) + "\"" + rest) == Some(Meaning(parts))
  {
    if |parts| == 0 {
      assert PrintParts(parts) + "\"" + rest == "\"" + rest;
    } else {
      hide Decode, PrintPart, PartMeaning, LegalPart;
      var t := PrintParts(parts[1..]) + "\"" + rest;
      LegalLiteralDecodes(parts[1..], rest);
      Regrouped(PrintPart(parts[0]), PrintParts(parts[1..]), "\"", rest);
      DecodePart(parts[0], t);
    }
  }

  /** The other decoder of the repository agrees on every legal literal. */
  lemma {:induction false} DecodersAgree(parts: seq<Part>)
    requires LegalParts(parts)
    ensures Unescape(PrintParts(parts)) == Meaning(parts)
  {
    if |parts| > 0 {
      var x, t := PrintPart(parts[0]), PrintParts(parts[1..]);
      DecodersAgree(parts[1..]);
      assert (x + t)[|x|..] == t;
      assert UnitLength(x + t) == |x|;
      if parts[0].Unicode? {
        assert (x + t)[..6] == x;
      }
    }
  }

  // ----- the walk ----------------------------------------------------------

  /** NotFound, or the first system message with its content, if that is a string. */
  datatype Found = NotFound | SystemMessage(content: Option<string>)

  function Search(s: string): Found
    decreases |s|
  {
    if |s| == 0 then NotFound
    else if Space(s[0]) || s[0] == ',' then Search(s[1..])
    else if s[0] != '{' then NotFound
    else
      match ObjectEnd(s)
      case None => NotFound
      case Some(e) =>
        if HasRole(s[..e + 1], "system") then SystemMessage(FieldValue(s[..e + 1], "content"))
        else Search(s[e + 1..])
  }

  /** The first place from `i` on that is neither white space nor a colon. */
  function ValueStart(s: string, i: nat): (k: nat)
    requires i <= |s|
    ensures i <= k <= |s|
    decreases |s| - i
  {
    if i < |s| && (Space(s[i]) || s[i] == ':') then ValueStart(s, i + 1) else i
  }

  function SystemContentOf(payload: string): Found
  {
    var idx := IndexOf(payload, "\"messages\"");
    if idx < 0 then NotFound
    else
      var i := ValueStart(payload, idx + 10);
      if i >= |payload| || payload[i] != '[' then NotFound else Search(payload[i + 1..])
  }

  method SkipJSONValueStart(payload: string, from: nat) returns (i: int)
    requires from <= |payload|
    ensures var k := ValueStart(payload, from); i == if k < |payload| then k else -1
  {
    var k := from;
    while k < |payload|
      invariant from <= k <= |payload| && ValueStart(payload, k) == ValueStart(payload, from)
    {
      var c := payload[k];
      if c == ' ' || c == '\t' || c == '\n' || c == '\r' {
        k := k + 1;
        continue;
      }
      if c == ':' {
        k := k + 1;
        continue;
      }
      return k;
    }
    return -1;
  }

  /** What the walk does at `i`. */
  lemma SearchUnfold(payload: string, i: nat)
    requires i < |payload|
    ensures var found := Search(payload[i..]);
            if Space(payload[i]) || payload[i] == ',' then found == Search(payload[i + 1..])
            else if payload[i] != '{' || ObjectEnd(payload[i..]).None? then found == NotFound
            else
              var end := i + ObjectEnd(payload[i..]).value;
              var obj := payload[i..end + 1];
              found == if HasRole(obj, "system") then SystemMessage(FieldValue(obj, "content"))
                       else Search(payload[end + 1..])
  {
    hide ObjectEnd, HasRole, FieldValue;
    var s := payload[i..];
    assert s[1..] == payload[i + 1..];
    if ObjectEnd(s).Some? {
      var e := ObjectEnd(s).value;
      assert s[..e + 1] == payload[i..i + e + 1] && s[e + 1..] == payload[i + e + 1..];
    }
  }

  lemma SearchNothing()
    ensures Search("") == NotFound
  {
  }

  ghost predicate Reports(found: Found, content: string, ok: bool)
  {
    match found
    case NotFound => content == "" && !ok
    case SystemMessage(None) => content == "" && ok
    case SystemMessage(Some(text)) => content == text && ok
  }

  method SearchMessages(payload: string, from: nat) returns (content: string, ok: bool)
    requires from <= |payload|
    ensures Reports(Search(payload[from..]), content, ok)
  {
    hide Search, ObjectEnd, HasRole, FieldValue;
    var i := from;
    while i < |payload|
      invariant from <= i <= |payload| && Search(payload[i..]) == Search(payload[from..])
      decreases |payload| - i
    {
      SearchUnfold(payload, i);
      var c := payload[i];
      if c == ' ' || c == '\t' || c == '\n' || c == '\r' || c == ',' {
        i := i + 1;
        continue;
      }
      if c != '{' {
        return "", false;
      }
      var end, found := FindObjectEnd(payload, i);
      if !found {
        return "", false;
      }
      var obj := payload[i..end + 1];
      var system := ReadRole(obj, "system");
      if system {
        var cs := ExtractStringField(obj, "content");
        if cs.Some? {
          return cs.value, true;
        }
        return "", true;
      }
      i := end + 1;
    }
    SearchNothing();
    assert payload[i..] == "";
    return "", false;
  }

  method ExtractSystemContent(payload: string) returns (content: string, ok: bool)
    ensures Reports(SystemContentOf(payload), content, ok)
  {
    hide IndexOf, Search;
    var idx := BytesIndex(payload, "\"messages\"");
    if idx < 0 {
      return "", false;
    }
    var at := SkipJSONValueStart(payload, idx + 10);
    if at < 0 || payload[at] != '[' {
      return "", false;
    }
    content, ok := SearchMessages(payload, at + 1);
  }

  // ----- on every legally printed request ----------------------------------

  /** The first message the role test accepts. */
  function FirstSystem(es: Elems): Found
  {
    match es
    case NoElems => NotFound
    case Elem(_, v, _, rest) =>
      if HasRole(Print(v), "system") then SystemMessage(FieldValue(Print(v), "content")) else FirstSystem(rest)
  }

  lemma {:induction false} SearchSkips(x: string, t: string)
    requires forall i :: 0 <= i < |x| ==> Space(x[i]) || x[i] == ','
    ensures Search(x + t) == Search(t)
  {
    if |x| == 0 {
      assert x + t == t;
    } else {
      assert (x + t)[1..] == x[1..] + t;
      SearchSkips(x[1..], t);
    }
  }

  /** The walk sees exactly the printed messages, one by one, up to the first system
      message, whatever the white space and whatever the strings in them contain. */
  lemma {:induction false} SearchFindsFirstSystem(es: Elems, post: string)
    requires LegalElems(es) && AllObjects(es)
    ensures Search(PrintElems(es) + "]" + post) == FirstSystem(es)
    decreases es
  {
    hide HasRole, FieldValue, ObjectEnd;
    match es
    case NoElems =>
    case Elem(before, v, after, rest) =>
      var gap := after + if rest.Elem? then "," else "";
      var t := PrintElems(rest) + "]" + post;
      ElemsRegrouped(before, Print(v), after, if rest.Elem? then "," else "", PrintElems(rest), post);
      SearchSkips(before, Print(v) + (gap + t));
      ObjectEndIsExact(v, gap + t);
      var s := Print(v) + (gap + t);
      assert s[..|Print(v)|] == Print(v) && s[|Print(v)|..] == gap + t;
      SearchSkips(gap, t);
      SearchFindsFirstSystem(rest, post);
  }

  lemma {:induction false} GapIsSkipped(payload: string, i: nat, j: nat)
    requires i <= j <= |payload| && (forall k :: i <= k < j ==> Space(payload[k]) || payload[k] == ':')
    requires j < |payload| ==> !Space(payload[j]) && payload[j] != ':'
    ensures ValueStart(payload, i) == j
    decreases j - i
  {
    if i < j {
      GapIsSkipped(payload, i + 1, j);
    }
  }

  /** For any payload whose first "messages" key introduces a legally printed list of
      objects, the extraction is exactly the first system message of that list. */
  lemma ExtractsTheFirstSystemMessage(pre: string, gap: string, open: string, es: Elems, post: string)
    requires var payload := pre + "\"messages\"" + gap + "[" + open + PrintElems(es) + "]" + post;
             IndexOf(payload, "\"messages\"") == |pre|
    requires (forall k :: 0 <= k < |gap| ==> Space(gap[k]) || gap[k] == ':') && IsSpace(open)
    requires LegalElems(es) && AllObjects(es)
    ensures SystemContentOf(pre + "\"messages\"" + gap + "[" + open + PrintElems(es) + "]" + post) == FirstSystem(es)
  {
    hide Search, IndexOf, FirstSystem, PrintElems;
    var list := PrintElems(es) + "]" + post;
    var payload := pre + "\"messages\"" + gap + "[" + open + PrintElems(es) + "]" + post;
    var i := |pre| + 10;
    assert payload == (pre + "\"messages\"") + (gap + ("[" + (open + list)));
    assert forall k :: 0 <= k < |gap| ==> payload[i + k] == gap[k];
    assert payload[i + |gap|] == '[';
    forall k | i <= k < i + |gap|
      ensures Space(payload[k]) || payload[k] == ':'
    {
      assert payload[i + (k - i)] == gap[k - i];
    }
    GapIsSkipped(payload, i, i + |gap|);
    assert payload[i + |gap| + 1..] == open + list;
    SearchSkips(open, list);
    SearchFindsFirstSystem(es, post);
  }

  // ----- the role test -----------------------------------------------------

  predicate Blanks(x: string)
  {
    forall i :: 0 <= i < |x| ==> x[i] == ' ' || x[i] == '\t'
  }

  lemma {:induction false} BlanksAreSkipped(s: string, i: nat, j: nat)
    requires i <= j < |s| && (forall k :: i <= k < j ==> s[k] == ' ' || s[k] == '\t') && s[j] != ' ' && s[j] != '\t'
    ensures SkipBlanks(s, i) == j
    decreases j - i
  {
    if i < j {
      BlanksAreSkipped(s, i + 1, j);
    }
  }

  /** Up to the first quote the body of a legal literal is a plain word exactly when the
      whole body is that word. */
  lemma WordUpToQuote(parts: seq<Part>, rest: string, word: string)
    requires LegalParts(parts) && forall i :: 0 <= i < |word| ==> word[i] != '\\' && word[i] != '"'
    ensures var s := PrintParts(parts) + "\"" + rest;
            var n := IndexOf(s, "\"");
            n >= 0 && (s[..n] == word <==> PrintParts(parts) == word)
  {
    var body := PrintParts(parts);
    var s := body + "\"" + rest;
    var n := IndexOf(s, "\"");
    IndexOfIsLeast(s, "\"");
    assert s[|body|..|body| + 1] == "\"";
    assert OccursAt(s, "\"", |body|);
    assert s[n..n + 1][0] == '"';
    if n < |body| {
      QuoteIsEscaped(parts, n);
      assert s[n - 1] == body[n - 1] && s[n] == body[n];
      assert s[..n][n - 1] == '\\' && body[n] == '"';
    } else {
      assert s[..n] == body;
    }
  }

  lemma {:induction false} QuoteIsEscaped(parts: seq<Part>, n: nat)
    requires LegalParts(parts) && n < |PrintParts(parts)| && PrintParts(parts)[n] == '"'
    ensures n > 0 && PrintParts(parts)[n - 1] == '\\'
  {
    var x := PrintPart(parts[0]);
    if n >= |x| {
      QuoteIsEscaped(parts[1..], n - |x|);
    }
  }

  lemma NeedleComesFirst(lead: string, needle: string, u: string)
    requires |needle| > 0 && needle[0] == '"' && forall i :: 0 <= i < |lead| ==> lead[i] != '"'
    ensures IndexOf(lead + needle + u, needle) == |lead|
  {
    var s := lead + needle + u;
    assert s[|lead|..|lead| + |needle|] == needle;
    forall k | 0 <= k < |lead|
      ensures !OccursAt(s, needle, k)
    {
      assert s[k] == lead[k];
      if k <= |s| - |needle| {
        assert s[k..k + |needle|][0] == s[k];
      }
    }
    LeastIsIndexOf(s, needle, |lead|);
  }

  lemma OpenQuoteAt(lead: string, a: string, b: string, w: string)
    requires (forall i :: 0 <= i < |lead| ==> lead[i] != '"') && Blanks(a) && Blanks(b)
    ensures var s := lead + "\"role\"" + (a + (":" + (b + ("\"" + w))));
            OpenQuote(s, "role").Some? && s[OpenQuote(s, "role").value + 1..] == w
  {
    hide SkipBlanks, IndexOf;
    var needle := "\"role\"";
    var s := lead + needle + (a + (":" + (b + ("\"" + w))));
    NeedleComesFirst(lead, needle, a + (":" + (b + ("\"" + w))));
    assert "\"" + "role" + "\"" == needle;
    var i := |lead| + |needle|;
    var j := i + |a| + 1;
    assert forall k :: 0 <= k < |a| ==> s[i + k] == a[k];
    assert forall k :: i <= k < i + |a| ==> s[k] == a[k - i];
    assert s[i + |a|] == ':';
    BlanksAreSkipped(s, i, i + |a|);
    assert forall k :: j <= k < j + |b| ==> s[k] == b[k - j];
    assert s[j + |b|] == '"';
    BlanksAreSkipped(s, j, j + |b|);
    assert s[j + |b| + 1..] == w;
  }

  lemma PrintedWithRole(v: Value) returns (rest: string)
    requires v.Obj? && v.members.Member? && PrintParts(v.members.key) == "role" && v.members.v.Str?
    ensures var m := v.members;
            Print(v) == "{" + v.open + m.before + "\"role\""
                        + (m.afterKey + (":" + (m.beforeValue + ("\"" + (PrintParts(m.v.parts) + "\"" + rest)))))
  {
    hide PrintParts;
    var m := v.members;
    var body := PrintParts(m.v.parts);
    var more := (if m.rest.Member? then "," else "") + PrintMembers(m.rest);
    rest := m.after + more + "}";
    assert PrintString(m.key) == "\"role\"" by { assert "\"" + ("role" + "\"") == "\"role\""; }
    assert Print(m.v) == "\"" + (body + "\"");
    Regroup(v.open, m.before, m.afterKey, m.beforeValue, body, m.after, more);
  }

  lemma Regroup(open: string, before: string, a: string, b: string, body: string, after: string, more: string)
    ensures "{" + (open + ((before + ("\"role\"" + (a + (":" + (b + (("\"" + (body + "\"")) + (after + more)))))))
                             + "}"))
         == "{" + open + before + "\"role\"" + (a + (":" + (b + ("\"" + (body + "\"" + (after + more + "}"))))))
  {
  }

  /** A message whose first member is its role, with only spaces and tabs around the
      colon, passes the test exactly when the role is written "system". */
  lemma RoleTestIsExact(v: Value)
    requires v.Obj? && Legal(v) && v.members.Member?
    requires PrintParts(v.members.key) == "role" && v.members.v.Str?
    requires Blanks(v.members.afterKey) && Blanks(v.members.beforeValue)
    ensures HasRole(Print(v), "system") <==> PrintParts(v.members.v.parts) == "system"
  {
    hide PrintMembers, IndexOf, OpenQuote, PrintParts, Print;
    var m := v.members;
    assert LegalMembers(m) && Legal(m.v);
    var lead := "{" + v.open + m.before;
    forall i | 0 <= i < |lead|
      ensures lead[i] != '"'
    {
      assert lead[i] == if i == 0 then '{' else if i <= |v.open| then v.open[i - 1] else m.before[i - 1 - |v.open|];
    }
    var rest := PrintedWithRole(v);
    OpenQuoteAt(lead, m.afterKey, m.beforeValue, PrintParts(m.v.parts) + "\"" + rest);
    WordUpToQuote(m.v.parts, rest, "system");
  }
}
