// The log compressor's byte-level rewriting: finding a string field, decoding and
// re-encoding its literal, and walking a payload without parsing it.
module ToolMessages {
  import opened Text
  import opened JsonScan

  // ----- string literals ---------------------------------------------------

  function HexChar(n: nat): char
    requires n < 16
  {
    "0123456789abcdef"[n]
  }

  function EncodeChar(c: char): string
  {
    if c == '"' then "\\\""
    else if c == '\\' then "\\\\"
    else if c == '\U{0008}' then "\\b"
    else if c == '\U{000C}' then "\\f"
    else if c == '\n' then "\\n"
    else if c == '\r' then "\\r"
    else if c == '\t' then "\\t"
    else if c < ' ' then ['\\', 'u', '0', '0', HexChar(c as int / 16), HexChar(c as int % 16)]
    else [c]
  }

  function EncodeBody(s: string): string
  {
    if |s| == 0 then "" else EncodeChar(s[0]) + EncodeBody(s[1..])
  }

  function Encode(s: string): string
  {
    "\"" + EncodeBody(s) + "\""
  }

  lemma {:induction false} EncodeBodyPush(s: string, c: char)
    ensures EncodeBody(s + [c]) == EncodeBody(s) + EncodeChar(c)
  {
    if |s| == 0 {
      assert s + [c] == [c] && [c][1..] == "";
      assert EncodeBody([c]) == EncodeChar(c) + EncodeBody("");
    } else {
      assert (s + [c])[1..] == s[1..] + [c];
      EncodeBodyPush(s[1..], c);
    }
  }

  method JsonEncodeString(s: string) returns (out: string)
    ensures out == Encode(s)
  {
    hide EncodeChar;
    out := "\"";
    for i := 0 to |s|
      invariant out == "\"" + EncodeBody(s[..i])
    {
      assert s[..i + 1] == s[..i] + [s[i]];
      EncodeBodyPush(s[..i], s[i]);
      out := out + EncodeChar(s[i]);
    }
    assert s[..|s|] == s;
    out := out + "\"";
  }

  /** What a backslash and the byte after it stand for. */
  function UnescapePair(esc: char): string
  {
    if esc == '"' || esc == '\\' || esc == '/' then [esc]
    else if esc == 'b' then "\U{0008}"
    else if esc == 'f' then "\U{000C}"
    else if esc == 'n' then "\n"
    else if esc == 'r' then "\r"
    else if esc == 't' then "\t"
    else ['\\', esc]
  }

  /** How many bytes the decoder takes at once from the front of `s`. */
  function UnitLength(s: string): (n: nat)
    requires |s| > 0
    ensures 1 <= n <= |s|
  {
    if s[0] != '\\' || |s| == 1 then 1
    else if s[1] == 'u' && |s| >= 6 then 6
    else 2
  }

  /** \uXXXX and unknown escapes are left as they are. */
  function UnitText(s: string): string
    requires |s| > 0
  {
    if s[0] != '\\' || |s| == 1 then [s[0]]
    else if s[1] == 'u' && |s| >= 6 then s[..6]
    else UnescapePair(s[1])
  }

  function Unescape(s: string): string
  {
    if |s| == 0 then "" else UnitText(s) + Unescape(s[UnitLength(s)..])
  }

  lemma UnescapeUnfold(t: string)
    requires |t| > 0
    ensures Unescape(t) == UnitText(t) + Unescape(t[UnitLength(t)..])
  {
    hide UnitText, UnitLength;
  }

  lemma UnescapeUnit(s: string, i: nat, out: string, rest: string, whole: string) returns (next: string)
    requires i < |s| && rest == Unescape(s[i..]) && whole == out + rest
    ensures next == Unescape(s[i + UnitLength(s[i..])..]) && whole == out + UnitText(s[i..]) + next
  {
    hide *;
    var t := s[i..];
    UnescapeUnfold(t);
    assert t[UnitLength(t)..] == s[i + UnitLength(t)..];
    next := Unescape(t[UnitLength(t)..]);
    TextAssociative(out, UnitText(t), next, whole);
  }

  lemma TextAssociative(a: string, b: string, c: string, whole: string)
    requires whole == a + (b + c)
    ensures whole == (a + b) + c
  {
  }

  method UnescapeJSONString(s: string) returns (out: string)
    ensures out == Unescape(s)
  {
    out := "";
    var i := 0;
    assert s[0..] == s && s[|s|..] == "" && Unescape("") == "";
    hide Unescape, UnescapePair;
    ghost var whole, rest := Unescape(s), Unescape(s);
    while i < |s|
      invariant 0 <= i <= |s|
      invariant rest == Unescape(s[i..]) && whole == out + rest
    {
      rest := UnescapeUnit(s, i, out, rest, whole);
      var c := s[i];
      if c != '\\' || i + 1 >= |s| {
        out := out + [c];
        i := i + 1;
        continue;
      }
      var esc := s[i + 1];
      if esc == 'u' && i + 6 <= |s| {
        assert s[i..][..6] == s[i..i + 6];
        out := out + s[i..i + 6];
        i := i + 6;
      } else {
        out := out + UnescapePair(esc);
        i := i + 2;
      }
    }
  }

  /** A control byte that has a two-character escape, or no control byte at all. */
  predicate ShortEscape(c: char)
  {
    c >= ' ' || c == '\U{0008}' || c == '\U{000C}' || c == '\n' || c == '\r' || c == '\t'
  }

  predicate AllShort(text: string)
  {
    forall i :: 0 <= i < |text| ==> ShortEscape(text[i])
  }

  /** What one encoded character decodes to, and how much of the text it takes. */
  lemma EncodedUnit(c: char, t: string)
    ensures var s := EncodeChar(c) + t;
            UnitLength(s) == |EncodeChar(c)| && UnitText(s) == if ShortEscape(c) then [c] else EncodeChar(c)
  {
    var e := EncodeChar(c);
    var s := e + t;
    if !ShortEscape(c) {
      assert s[..6] == e;
    }
  }

  lemma UnescapeEncodedChar(c: char, t: string)
    ensures Unescape(EncodeChar(c) + t) == (if ShortEscape(c) then [c] else EncodeChar(c)) + Unescape(t)
  {
    EncodedUnit(c, t);
    UnescapeUnfold(EncodeChar(c) + t);
    hide EncodeChar, Unescape, UnitLength, UnitText, ShortEscape;
    var e := EncodeChar(c);
    assert (e + t)[|e|..] == t;
  }

  lemma {:induction false} UnescapeEncodedLength(s: string)
    ensures AllShort(s) ==> Unescape(EncodeBody(s)) == s
    ensures |Unescape(EncodeBody(s))| >= |s|
    ensures !AllShort(s) ==> |Unescape(EncodeBody(s))| > |s|
  {
    if |s| == 0 {
      assert EncodeBody(s) == "" && Unescape("") == "";
    } else {
      EncodeBodyUnfold(s);
      hide Unescape, EncodeChar, ShortEscape, EncodeBody, AllShort;
      UnescapeEncodedLength(s[1..]);
      UnescapeEncodedChar(s[0], EncodeBody(s[1..]));
      LongerIfEscaped(s[0]);
      AllShortUnfold(s);
      assert s == [s[0]] + s[1..];
    }
  }

  lemma AllShortUnfold(s: string)
    requires |s| > 0
    ensures AllShort(s) <==> ShortEscape(s[0]) && AllShort(s[1..])
  {
    hide ShortEscape;
    assert forall i :: 0 <= i < |s| - 1 ==> s[1..][i] == s[i + 1];
    assert forall i :: 0 < i < |s| ==> s[i] == s[1..][i - 1];
  }

  lemma LongerIfEscaped(c: char)
    ensures !ShortEscape(c) ==> |EncodeChar(c)| == 6
  {
  }

  /** Decoding undoes encoding for exactly the texts whose control bytes all have
      two-character escapes. */
  lemma {:induction false} DecodingUndoesEncoding(s: string)
    ensures Unescape(EncodeBody(s)) == s <==> AllShort(s)
  {
    UnescapeEncodedLength(s);
  }

  /** A control byte without a short escape comes back as six bytes. */
  lemma ControlByteIsLost()
    ensures EncodeBody("\U{0001}") == "\\u0001" && Unescape(EncodeBody("\U{0001}")) == "\\u0001"
  {
    DecodingUndoesEncoding("\U{0001}");
    EncodedUnit('\U{0001}', "");
    assert EncodeBody("\U{0001}") == EncodeChar('\U{0001}') + "";
    var e := EncodeBody("\U{0001}");
    assert e == "\\u0001";
    assert Unescape(e) == UnitText(e) + Unescape(e[6..]);
  }

  // ----- string fields -----------------------------------------------------

  /** The first quote of `s` that no backslash escapes. */
  function CloseQuote(s: string): (r: Option<nat>)
    ensures r.Some? ==> r.value < |s| && s[r.value] == '"'
  {
    if |s| == 0 then None
    else if s[0] == '\\' then (if |s| == 1 then None else Shift(2, CloseQuote(s[2..])))
    else if s[0] == '"' then Some(0)
    else Shift(1, CloseQuote(s[1..]))
  }

  /** The closing quote of an encoded text is the encoder's own. */
  lemma {:induction false} CloseQuoteOfEncoded(s: string, rest: string)
    ensures CloseQuote(EncodeBody(s) + "\"" + rest) == Some(|EncodeBody(s)|)
  {
    if |s| == 0 {
      QuoteFirst(rest);
    } else {
      EncodeBodyUnfold(s);
      hide CloseQuote, EncodeChar, EncodeBody;
      var e, body := EncodeChar(s[0]), EncodeBody(s[1..]);
      CloseQuoteOfEncoded(s[1..], rest);
      Regrouped(e, body, "\"", rest);
      CloseQuoteSkips(s[0], body + "\"" + rest);
    }
  }

  lemma QuoteFirst(rest: string)
    ensures CloseQuote("" + "\"" + rest) == Some(0)
  {
    assert "" + "\"" + rest == "\"" + rest;
  }

  lemma EncodeBodyUnfold(s: string)
    requires |s| > 0
    ensures EncodeBody(s) == EncodeChar(s[0]) + EncodeBody(s[1..])
  {
    hide EncodeChar;
  }

  lemma Regrouped(a: string, b: string, c: string, d: string)
    ensures (a + b) + c + d == a + (b + c + d)
  {
  }

  /** An escape is a backslash, one more character, and nothing the scan minds. */
  lemma EscapeShape(c: char)
    ensures var e := EncodeChar(c);
            || (e == [c] && c != '\\' && c != '"')
            || (|e| >= 2 && e[0] == '\\' && forall i :: 2 <= i < |e| ==> e[i] != '\\' && e[i] != '"')
  {
  }

  lemma CloseQuotePlain(c: char, t: string)
    requires c != '\\' && c != '"'
    ensures CloseQuote([c] + t) == Shift(1, CloseQuote(t))
  {
    assert ([c] + t)[1..] == t;
  }

  lemma CloseQuoteEscape(c: char, t: string)
    ensures CloseQuote(['\\', c] + t) == Shift(2, CloseQuote(t))
  {
    assert (['\\', c] + t)[2..] == t;
  }

  lemma {:induction false} CloseQuoteRun(x: string, t: string)
    requires forall i :: 0 <= i < |x| ==> x[i] != '\\' && x[i] != '"'
    ensures CloseQuote(x + t) == Shift(|x|, CloseQuote(t))
  {
    if |x| == 0 {
      assert x + t == t;
    } else {
      CloseQuotePlain(x[0], x[1..] + t);
      assert x + t == [x[0]] + (x[1..] + t);
      CloseQuoteRun(x[1..], t);
    }
  }

  lemma CloseQuoteSkips(c: char, t: string)
    ensures CloseQuote(EncodeChar(c) + t) == Shift(|EncodeChar(c)|, CloseQuote(t))
  {
    hide CloseQuote, EncodeChar;
    EscapeShape(c);
    var e := EncodeChar(c);
    if e[0] != '\\' {
      CloseQuotePlain(c, t);
    } else {
      var body := e[2..];
      CloseQuoteEscape(e[1], body + t);
      assert e + t == ['\\', e[1]] + (body + t);
      CloseQuoteRun(body, t);
    }
  }

  /** The first place from `i` on that is neither space nor tab. */
  function SkipBlanks(s: string, i: nat): (k: nat)
    requires i <= |s|
    ensures i <= k <= |s|
    decreases |s| - i
  {
    if i < |s| && (s[i] == ' ' || s[i] == '\t') then SkipBlanks(s, i + 1) else i
  }

  /** Where a `"key": "value"` literal opens, if the first `"key"` starts one. */
  function OpenQuote(obj: string, key: string): (r: Option<nat>)
    ensures r.Some? ==> r.value < |obj| && obj[r.value] == '"'
  {
    var needle := "\"" + key + "\"";
    var idx := IndexOf(obj, needle);
    if idx < 0 then None
    else
      var i := SkipBlanks(obj, idx + |needle|);
      if i >= |obj| || obj[i] != ':' then None
      else
        var j := SkipBlanks(obj, i + 1);
        if j >= |obj| || obj[j] != '"' then None else Some(j)
  }

  /** Positions of the two quotes around the value of `key`. */
  function StringField(obj: string, key: string): (r: Option<(nat, nat)>)
    ensures r.Some? ==> r.value.0 < r.value.1 < |obj| && obj[r.value.0] == '"' && obj[r.value.1] == '"'
  {
    match OpenQuote(obj, key)
    case None => None
    case Some(open) =>
      match CloseQuote(obj[open + 1..])
      case None => None
      case Some(k) => Some((open, open + 1 + k))
  }

  /** The space-and-tab loop of the scanners. */
  method PastBlanks(obj: string, from: nat) returns (i: nat)
    requires from <= |obj|
    ensures i == SkipBlanks(obj, from)
  {
    i := from;
    while i < |obj| && (obj[i] == ' ' || obj[i] == '\t')
      invariant from <= i <= |obj|
      invariant SkipBlanks(obj, i) == SkipBlanks(obj, from)
    {
      i := i + 1;
    }
  }

  /** The closing-quote loop of the scanners. */
  method ToCloseQuote(obj: string, from: nat) returns (close: nat, ok: bool)
    requires from <= |obj|
    ensures CloseQuote(obj[from..]) == if ok then Some(close - from) else None
    ensures ok ==> from <= close
  {
    hide CloseQuote;
    var i := from;
    ghost var rest := CloseQuote(obj[from..]);
    ghost var whole := rest;
    while i < |obj|
      invariant from <= i <= |obj| + 1
      invariant whole == Shift(i - from, rest)
      invariant if i <= |obj| then rest == CloseQuote(obj[i..]) else rest == None
    {
      rest := CloseQuoteStep(obj, i);
      if obj[i] == '\\' {
        i := i + 2;
        continue;
      }
      if obj[i] == '"' {
        return i, true;
      }
      i := i + 1;
    }
    assert i == |obj| ==> obj[i..] == "";
    NoQuoteInNothing();
    return 0, false;
  }

  lemma NoQuoteInNothing()
    ensures CloseQuote("") == None
  {
  }

  /** What is left of the search after the byte or escape at `i`. */
  lemma CloseQuoteStep(obj: string, i: nat) returns (next: Option<nat>)
    requires i < |obj|
    ensures if obj[i] == '\\' then
              && CloseQuote(obj[i..]) == Shift(2, next)
              && if i + 2 <= |obj| then next == CloseQuote(obj[i + 2..]) else next == None
            else if obj[i] == '"' then CloseQuote(obj[i..]) == Some(0)
            else CloseQuote(obj[i..]) == Shift(1, next) && next == CloseQuote(obj[i + 1..])
  {
    var s := obj[i..];
    assert s[1..] == obj[i + 1..];
    next := CloseQuote(obj[i + 1..]);
    if obj[i] == '\\' {
      next := None;
      if i + 2 <= |obj| {
        assert s[2..] == obj[i + 2..];
        next := CloseQuote(obj[i + 2..]);
      }
    }
  }

  method FindOpenQuote(obj: string, key: string) returns (open: nat, ok: bool)
    ensures OpenQuote(obj, key) == if ok then Some(open) else None
  {
    hide IndexOf, SkipBlanks;
    var needle := "\"" + key + "\"";
    var idx := BytesIndex(obj, needle);
    if idx < 0 {
      return 0, false;
    }
    var i := PastBlanks(obj, idx + |needle|);
    if i >= |obj| || obj[i] != ':' {
      return 0, false;
    }
    i := PastBlanks(obj, i + 1);
    if i >= |obj| || obj[i] != '"' {
      return 0, false;
    }
    return i, true;
  }

  method FindStringField(obj: string, key: string) returns (open: nat, close: nat, ok: bool)
    ensures StringField(obj, key) == if ok then Some((open, close)) else None
  {
    hide OpenQuote, CloseQuote;
    open, ok := FindOpenQuote(obj, key);
    close := 0;
    if ok {
      close, ok := ToCloseQuote(obj, open + 1);
    }
  }

  lemma {:induction false} SkipBlanksShared(s: string, t: string, i: nat, n: nat)
    requires i <= n <= |s| && n <= |t| && s[..n] == t[..n] && SkipBlanks(s, i) < n
    ensures SkipBlanks(t, i) == SkipBlanks(s, i)
    decreases n - i
  {
    assert s[i] == s[..n][i] && t[i] == t[..n][i];
    if s[i] == ' ' || s[i] == '\t' {
      SkipBlanksShared(s, t, i + 1, n);
    }
  }

  /** Where the literal opens depends on nothing after its opening quote. */
  lemma OpenQuoteShared(s: string, t: string, key: string, n: nat)
    requires n <= |s| && n <= |t| && s[..n] == t[..n]
    requires OpenQuote(s, key).Some? && OpenQuote(s, key).value < n
    ensures OpenQuote(t, key) == OpenQuote(s, key)
  {
    hide IndexOf, SkipBlanks;
    var needle := "\"" + key + "\"";
    var idx := IndexOf(s, needle);
    var i := SkipBlanks(s, idx + |needle|);
    IndexOfShared(s, t, needle, n);
    SkipBlanksShared(s, t, idx + |needle|, n);
    SkipBlanksShared(s, t, i + 1, n);
    assert forall k :: 0 <= k < n ==> s[k] == s[..n][k] && t[k] == t[..n][k];
  }

  /** `obj` with the literal between its two quotes replaced. */
  function Spliced(obj: string, field: (nat, nat), literal: string): string
    requires field.0 < field.1 < |obj|
  {
    obj[..field.0] + literal + obj[field.1 + 1..]
  }

  /** Reading the field of a spliced object finds exactly the new literal. */
  lemma SplicedFieldIsFound(obj: string, key: string, text: string, tail: string)
    requires StringField(obj, key).Some?
    ensures var open := StringField(obj, key).value.0;
            StringField(obj[..open] + Encode(text) + tail, key) == Some((open, open + 1 + |EncodeBody(text)|))
  {
    hide OpenQuote, CloseQuote, EncodeBody;
    var open := StringField(obj, key).value.0;
    var out := obj[..open] + Encode(text) + tail;
    assert out[..open + 1] == obj[..open + 1];
    OpenQuoteShared(obj, out, key, open + 1);
    assert out[open + 1..] == EncodeBody(text) + "\"" + tail;
    CloseQuoteOfEncoded(text, tail);
  }

  // ----- one tool message --------------------------------------------------

  /** The decoded text of a field. */
  function FieldText(obj: string, field: (nat, nat)): string
    requires field.0 < field.1 < |obj|
  {
    Unescape(obj[field.0 + 1..field.1])
  }

  /** Stands for the trace compressor and for the structured-log compressor. */
  type Compressor = string -> string

  function RewriteMessage(obj: string, compress: Compressor): string
  {
    match StringField(obj, "content")
    case None => obj
    case Some(field) =>
      var text := FieldText(obj, field);
      if compress(text) == text then obj else Spliced(obj, field, Encode(compress(text)))
  }

  method CompressToolMessage(obj: string, compress: Compressor) returns (out: string)
    ensures out == RewriteMessage(obj, compress)
  {
    hide StringField, Unescape, Encode;
    var cs, ce, ok := FindStringField(obj, "content");
    if !ok {
      return obj;
    }
    var decoded := UnescapeJSONString(obj[cs + 1..ce]);
    var compressed := compress(decoded);
    if compressed == decoded {
      return obj;
    }
    var reencoded := JsonEncodeString(compressed);
    return obj[..cs] + reencoded + obj[ce + 1..];
  }

  /** Re-reading a rewritten message yields the compressed text, for exactly the
      texts whose control bytes have short escapes, and every byte before and
      after the literal is the original's. */
  lemma RewrittenMessageReadsBack(obj: string, compress: Compressor)
    requires StringField(obj, "content").Some?
    requires var text := FieldText(obj, StringField(obj, "content").value); compress(text) != text
    ensures var (open, close) := StringField(obj, "content").value;
            var text := compress(FieldText(obj, (open, close)));
            var out := RewriteMessage(obj, compress);
            && StringField(out, "content").Some?
            && var (open', close') := StringField(out, "content").value;
            && (FieldText(out, (open', close')) == text <==> AllShort(text))
            && out[..open'] == obj[..open]
            && out[close' + 1..] == obj[close + 1..]
  {
    hide StringField, Unescape, EncodeBody;
    var (open, close) := StringField(obj, "content").value;
    var text := compress(FieldText(obj, (open, close)));
    var out := RewriteMessage(obj, compress);
    SplicedFieldIsFound(obj, "content", text, obj[close + 1..]);
    assert out[open + 1..open + 1 + |EncodeBody(text)|] == EncodeBody(text);
    DecodingUndoesEncoding(text);
  }

  // ----- the walk over the messages array ----------------------------------

  /** The value of the first "role" literal, up to its first quote, is `role`. */
  predicate HasRole(obj: string, role: string)
  {
    match OpenQuote(obj, "role")
    case None => false
    case Some(open) =>
      var n := IndexOf(obj[open + 1..], "\"");
      n >= 0 && obj[open + 1..][..n] == role
  }

  predicate IsTool(obj: string)
  {
    HasRole(obj, "tool")
  }

  method ReadRole(obj: string, role: string) returns (r: bool)
    ensures r == HasRole(obj, role)
  {
    hide OpenQuote, IndexOf;
    var i, ok := FindOpenQuote(obj, "role");
    if !ok {
      return false;
    }
    i := i + 1;
    var j := i;
    while j < |obj| && obj[j] != '"'
      invariant i <= j <= |obj|
      invariant forall k :: i <= k < j ==> obj[k] != '"'
    {
      j := j + 1;
    }
    NextQuote(obj[i..], j - i);
    if j >= |obj| {
      return false;
    }
    assert obj[i..][..j - i] == obj[i..j];
    return obj[i..j] == role;
  }

  method IsToolMessage(obj: string) returns (r: bool)
    ensures r == IsTool(obj)
  {
    r := ReadRole(obj, "tool");
  }

  lemma NextQuote(s: string, n: nat)
    requires n <= |s| && (forall k :: 0 <= k < n ==> s[k] != '"') && (n < |s| ==> s[n] == '"')
    ensures IndexOf(s, "\"") == if n < |s| then n else -1
  {
    var r := IndexOf(s, "\"");
    IndexOfIsLeast(s, "\"");
    if r >= 0 {
      assert s[r..r + 1][0] == '"';
    }
    if n < |s| {
      assert s[n..n + 1] == "\"";
      assert OccursAt(s, "\"", n);
    }
  }

  function Rewrite(obj: string, compress: Compressor): string
  {
    if IsTool(obj) then RewriteMessage(obj, compress) else obj
  }

  function Prepend(x: string, r: Option<string>): Option<string>
  {
    match r
    case None => None
    case Some(y) => Some(x + y)
  }

  /** The walk on the bytes after the array's bracket; None when it gives up. */
  function Walk(s: string, compress: Compressor): Option<string>
    decreases |s|
  {
    if |s| == 0 then Some("")
    else if s[0] == ']' then Some(s)
    else if s[0] != '{' then Prepend([s[0]], Walk(s[1..], compress))
    else
      match ObjectEnd(s)
      case None => None
      case Some(e) => Prepend(Rewrite(s[..e + 1], compress), Walk(s[e + 1..], compress))
  }

  predicate Space(c: char)
  {
    c == ' ' || c == '\t' || c == '\n' || c == '\r'
  }

  function SkipSpace(s: string, i: nat): (k: nat)
    requires i <= |s|
    ensures i <= k <= |s|
    decreases |s| - i
  {
    if i < |s| && Space(s[i]) then SkipSpace(s, i + 1) else i
  }

  /** The whitespace loop of the walk. */
  method PastSpace(payload: string, from: nat) returns (i: nat)
    requires from <= |payload|
    ensures i == SkipSpace(payload, from)
  {
    i := from;
    while i < |payload| && Space(payload[i])
      invariant from <= i <= |payload|
      invariant SkipSpace(payload, i) == SkipSpace(payload, from)
    {
      i := i + 1;
    }
  }

  /** The offset just past the bracket of the messages array. */
  function ArrayBody(payload: string): (r: Option<nat>)
    ensures r.Some? ==> r.value <= |payload|
  {
    var needle := "\"messages\"";
    var idx := IndexOf(payload, needle);
    if idx < 0 then None
    else
      var i := SkipSpace(payload, idx + |needle|);
      if i >= |payload| || payload[i] != ':' then None
      else
        var j := SkipSpace(payload, i + 1);
        if j >= |payload| || payload[j] != '[' then None else Some(j + 1)
  }

  function RewritePayload(payload: string, compress: Compressor): string
  {
    match ArrayBody(payload)
    case None => payload
    case Some(b) => WalkResult(payload, b, compress)
  }

  method CompressAllTraces(payload: string, compress: Compressor) returns (out: string)
    ensures out == RewritePayload(payload, compress)
  {
    hide IndexOf, SkipSpace, Walk;
    var needle := "\"messages\"";
    var idx := BytesIndex(payload, needle);
    if idx < 0 {
      return payload;
    }
    var i := PastSpace(payload, idx + |needle|);
    if i >= |payload| || payload[i] != ':' {
      return payload;
    }
    i := PastSpace(payload, i + 1);
    if i >= |payload| || payload[i] != '[' {
      return payload;
    }
    out := WalkMessages(payload, i + 1, compress);
  }

  lemma PrependConcat(x: string, y: string, r: Option<string>)
    ensures Prepend("", r) == r
    ensures Prepend(x, Prepend(y, r)) == Prepend(x + y, r)
  {
    if r.Some? {
      assert "" + r.value == r.value;
      assert x + (y + r.value) == x + y + r.value;
    }
  }

  lemma WalkByte(payload: string, i: nat, out: string, rest: Option<string>, compress: Compressor)
      returns (next: Option<string>)
    requires i < |payload| && rest == Walk(payload[i..], compress)
    requires payload[i] != ']' && payload[i] != '{'
    ensures next == Walk(payload[i + 1..], compress)
    ensures Prepend(out + [payload[i]], next) == Prepend(out, rest)
  {
    hide Walk, ObjectEnd;
    next := Walk(payload[i + 1..], compress);
    WalkOneByte(payload[i..], compress);
    assert payload[i..][1..] == payload[i + 1..];
    PrependConcat(out, [payload[i]], next);
  }

  lemma WalkObject(payload: string, i: nat, end: nat, out: string, rest: Option<string>, compress: Compressor)
      returns (next: Option<string>)
    requires i <= end < |payload| && rest == Walk(payload[i..], compress)
    requires payload[i] == '{' && ObjectEnd(payload[i..]) == Some(end - i)
    ensures next == Walk(payload[end + 1..], compress)
    ensures Prepend(out + Rewrite(payload[i..end + 1], compress), next) == Prepend(out, rest)
  {
    hide Walk, Rewrite, ObjectEnd;
    next := Walk(payload[end + 1..], compress);
    assert payload[i..] == payload[i..end + 1] + payload[end + 1..];
    WalkOneObject(payload[i..end + 1], payload[end + 1..], compress);
    PrependConcat(out, Rewrite(payload[i..end + 1], compress), next);
  }

  lemma WalkStops(s: string, compress: Compressor)
    ensures |s| == 0 ==> Walk(s, compress) == Some("")
    ensures |s| > 0 && s[0] == ']' ==> Walk(s, compress) == Some(s)
    ensures |s| > 0 && s[0] == '{' && ObjectEnd(s).None? ==> Walk(s, compress) == None
  {
    hide ObjectEnd;
  }

  /** What the walk leaves behind: everything it copied, or the untouched payload. */
  function WalkResult(payload: string, start: nat, compress: Compressor): string
    requires start <= |payload|
  {
    match Walk(payload[start..], compress)
    case None => payload
    case Some(w) => payload[..start] + w
  }

  lemma TakeByte(out: string, payload: string, i: nat)
    requires i < |payload|
    ensures out + payload[i..] == out + [payload[i]] + payload[i + 1..]
  {
  }

  lemma WalkEnds(payload: string, i: nat, out: string)
    requires i < |payload|
    ensures Prepend(out, Some(payload[i..])) == Prepend(out + [payload[i]], Some(payload[i + 1..]))
  {
    TakeByte(out, payload, i);
  }

  lemma Finish(payload: string, i: nat, out: string, rest: Option<string>)
    requires i <= |payload| && rest == Some(payload[i..])
    ensures Prepend(out, rest) == Some(if i < |payload| then out + payload[i..] else out)
  {
    if i == |payload| {
      assert payload[i..] == "" && out + "" == out;
    }
  }

  method WalkMessages(payload: string, start: nat, compress: Compressor) returns (out: string)
    requires start <= |payload|
    ensures out == WalkResult(payload, start, compress)
  {
    out := payload[..start];
    var i := start;
    ghost var rest := Walk(payload[start..], compress);
    ghost var whole := Prepend(out, rest);
    WalkResultIs(payload, start, compress, whole);
    hide *;
    while i < |payload|
      invariant start <= i <= |payload|
      invariant rest == Walk(payload[i..], compress)
      invariant whole == Prepend(out, rest)
    {
      if payload[i] == ']' {
        WalkStops(payload[i..], compress);
        WalkEnds(payload, i, out);
        rest := Some(payload[i + 1..]);
        out := out + [payload[i]];
        i := i + 1;
        break;
      }
      if payload[i] != '{' {
        rest := WalkByte(payload, i, out, rest, compress);
        out := out + [payload[i]];
        i := i + 1;
        continue;
      }
      var ok;
      ok, out, i, rest := CopyObject(payload, i, out, rest, compress);
      if !ok {
        return payload;
      }
    }
    if i == |payload| {
      WalkStops(payload[i..], compress);
      assert payload[i..] == "";
    }
    Finish(payload, i, out, rest);
    if i < |payload| {
      out := out + payload[i..];
    }
  }

  /** One message, rewritten if it is a tool message, and what separates it from the
      next. */
  method CopyObject(payload: string, from: nat, before: string, ghost restBefore: Option<string>, compress: Compressor)
      returns (ok: bool, out: string, i: nat, ghost rest: Option<string>)
    requires from < |payload| && payload[from] == '{' && restBefore == Walk(payload[from..], compress)
    ensures !ok ==> Prepend(before, restBefore) == None
    ensures ok ==>
              && from < i <= |payload| && rest == Walk(payload[i..], compress)
              && Prepend(out, rest) == Prepend(before, restBefore)
  {
    hide *;
    out, i, rest := before, from, restBefore;
    var objEnd;
    objEnd, ok := FindObjectEnd(payload, i);
    if !ok {
      WalkStops(payload[i..], compress);
      GivesUp(out, rest);
      return;
    }
    rest := WalkObject(payload, i, objEnd, out, rest, compress);
    var rewritten := RewriteIfTool(payload[i..objEnd + 1], compress);
    out := out + rewritten;
    out, i, rest := CopyComma(payload, objEnd + 1, out, rest, compress);
  }

  lemma WalkResultIs(payload: string, start: nat, compress: Compressor, whole: Option<string>)
    requires start <= |payload| && whole == Prepend(payload[..start], Walk(payload[start..], compress))
    ensures WalkResult(payload, start, compress) == if whole.Some? then whole.value else payload
  {
    hide Walk;
  }

  lemma GivesUp(out: string, rest: Option<string>)
    requires rest == None
    ensures Prepend(out, rest) == None
  {
  }

  method RewriteIfTool(obj: string, compress: Compressor) returns (out: string)
    ensures out == Rewrite(obj, compress)
  {
    var tool := IsToolMessage(obj);
    if tool {
      out := CompressToolMessage(obj, compress);
    } else {
      out := obj;
    }
  }

  /** White space, a comma if there is one, and white space again. */
  method CopyComma(payload: string, from: nat, before: string, ghost restBefore: Option<string>, compress: Compressor)
      returns (out: string, i: nat, ghost rest: Option<string>)
    requires from <= |payload| && restBefore == Walk(payload[from..], compress)
    ensures from <= i <= |payload| && rest == Walk(payload[i..], compress)
    ensures Prepend(out, rest) == Prepend(before, restBefore)
  {
    hide *;
    out, i, rest := CopySpace(payload, from, before, restBefore, compress);
    if i < |payload| && payload[i] == ',' {
      rest := WalkByte(payload, i, out, rest, compress);
      out := out + [payload[i]];
      i := i + 1;
      out, i, rest := CopySpace(payload, i, out, rest, compress);
    }
  }

  /** The whitespace-copying loop of the walk. */
  method CopySpace(payload: string, from: nat, before: string, ghost restBefore: Option<string>, compress: Compressor)
      returns (out: string, i: nat, ghost rest: Option<string>)
    requires from <= |payload| && restBefore == Walk(payload[from..], compress)
    ensures from <= i <= |payload| && rest == Walk(payload[i..], compress)
    ensures Prepend(out, rest) == Prepend(before, restBefore)
  {
    hide Walk;
    out, i, rest := before, from, restBefore;
    while i < |payload| && Space(payload[i])
      invariant from <= i <= |payload|
      invariant rest == Walk(payload[i..], compress)
      invariant Prepend(out, rest) == Prepend(before, restBefore)
    {
      rest := WalkByte(payload, i, out, rest, compress);
      out := out + [payload[i]];
      i := i + 1;
    }
  }

  /** The objects the walk cuts out. */
  function Visited(s: string): seq<string>
    decreases |s|
  {
    if |s| == 0 || s[0] == ']' then []
    else if s[0] != '{' then Visited(s[1..])
    else
      match ObjectEnd(s)
      case None => []
      case Some(e) => [s[..e + 1]] + Visited(s[e + 1..])
  }

  lemma {:induction false} WalkIdentity(s: string, compress: Compressor)
    requires forall obj :: obj in Visited(s) ==> Rewrite(obj, compress) == obj
    ensures Walk(s, compress) == None || Walk(s, compress) == Some(s)
    decreases |s|
  {
    WalkStops(s, compress);
    VisitedUnit(s);
    hide Walk, Visited, ObjectEnd, Rewrite;
    if |s| == 0 || s[0] == ']' {
      assert |s| == 0 ==> s == "";
    } else if s[0] != '{' {
      WalkIdentity(s[1..], compress);
      WalkOneByte(s, compress);
      assert s == [s[0]] + s[1..];
    } else if ObjectEnd(s).Some? {
      var e := ObjectEnd(s).value;
      var obj, t := s[..e + 1], s[e + 1..];
      assert obj in Visited(s);
      assert s == obj + t;
      WalkIdentity(t, compress);
      WalkOneObject(obj, t, compress);
    }
  }

  lemma VisitedUnit(s: string)
    ensures |s| > 0 && s[0] != ']' && s[0] != '{' ==> Visited(s) == Visited(s[1..])
    ensures |s| > 0 && s[0] == '{' && ObjectEnd(s).Some? ==>
              Visited(s) == [s[..ObjectEnd(s).value + 1]] + Visited(s[ObjectEnd(s).value + 1..])
  {
    hide ObjectEnd;
  }

  /** When no visited message changes, any payload comes back byte for byte. */
  lemma UnchangedPayload(payload: string, compress: Compressor)
    requires ArrayBody(payload).Some? ==>
               forall obj :: obj in Visited(payload[ArrayBody(payload).value..]) ==> Rewrite(obj, compress) == obj
    ensures RewritePayload(payload, compress) == payload
  {
    if ArrayBody(payload).Some? {
      var b := ArrayBody(payload).value;
      WalkIdentity(payload[b..], compress);
      assert payload == payload[..b] + payload[b..];
    }
  }

  predicate AllObjects(es: Elems)
  {
    es.Elem? ==> es.v.Obj? && AllObjects(es.rest)
  }

  /** A message list with every tool message rewritten and nothing else touched. */
  function RewriteElems(es: Elems, compress: Compressor): string
  {
    match es
    case NoElems => ""
    case Elem(before, v, after, rest) =>
      before + (Rewrite(Print(v), compress) + (after
        + ((if rest.Elem? then "," else "") + RewriteElems(rest, compress))))
  }

  lemma {:induction false} WalkCopies(x: string, t: string, compress: Compressor)
    requires forall i :: 0 <= i < |x| ==> x[i] != ']' && x[i] != '{'
    ensures Walk(x + t, compress) == Prepend(x, Walk(t, compress))
  {
    if |x| == 0 {
      assert x + t == t;
      PrependConcat("", "", Walk(t, compress));
    } else {
      WalkCopies(x[1..], t, compress);
      assert (x + t)[1..] == x[1..] + t && x == [x[0]] + x[1..];
      WalkOneByte(x + t, compress);
      PrependConcat([x[0]], x[1..], Walk(t, compress));
    }
  }

  lemma WalkOneByte(s: string, compress: Compressor)
    requires |s| > 0 && s[0] != ']' && s[0] != '{'
    ensures Walk(s, compress) == Prepend([s[0]], Walk(s[1..], compress))
  {
  }

  lemma WalkOneObject(obj: string, t: string, compress: Compressor)
    requires |obj| > 0 && obj[0] == '{' && ObjectEnd(obj + t) == Some(|obj| - 1)
    ensures Walk(obj + t, compress) == Prepend(Rewrite(obj, compress), Walk(t, compress))
  {
    hide Scan;
    assert (obj + t)[..|obj|] == obj && (obj + t)[|obj|..] == t;
  }

  /** On every legally printed message list the walk rewrites exactly the tool
      messages, whatever the whitespace and whatever follows the list. */
  lemma {:induction false} WalkRewritesEachMessage(es: Elems, post: string, compress: Compressor)
    requires LegalElems(es) && AllObjects(es)
    ensures Walk(PrintElems(es) + "]" + post, compress) == Some(RewriteElems(es, compress) + "]" + post)
    decreases es
  {
    match es
    case NoElems =>
      assert "" + "]" + post == "]" + post;
      WalkStops("]" + post, compress);
    case Elem(before, v, after, rest) =>
      assert LegalElems(rest) && AllObjects(rest) && IsSpace(before) && IsSpace(after) && Legal(v) && v.Obj?;
      WalkRewritesEachMessage(rest, post, compress);
      WalkFirstElem(before, v, after, if rest.Elem? then "," else "", PrintElems(rest),
                    RewriteElems(rest, compress), post, compress);
  }

  lemma WalkFirstElem(before: string, v: Value, after: string, comma: string, rest: string,
                      rewritten: string, post: string, compress: Compressor)
    requires IsSpace(before) && v.Obj? && Legal(v) && IsSpace(after) && (comma == "" || comma == ",")
    requires Walk(rest + "]" + post, compress) == Some(rewritten + "]" + post)
    ensures Walk(before + (Print(v) + (after + (comma + rest))) + "]" + post, compress)
         == Some(before + (Rewrite(Print(v), compress) + (after + (comma + rewritten))) + "]" + post)
  {
    assert forall i :: 0 <= i < |after + comma| ==> (after + comma)[i] != ']' && (after + comma)[i] != '{';
    hide *;
    WalkOneElem(before, v, after + comma, rest + "]" + post, rewritten + "]" + post, compress);
    ElemsRegrouped(before, Print(v), after, comma, rest, post);
    ElemsRegrouped(before, Rewrite(Print(v), compress), after, comma, rewritten, post);
  }

  lemma ElemsRegrouped(before: string, x: string, after: string, comma: string, rest: string, post: string)
    ensures before + (x + (after + (comma + rest))) + "]" + post ==
            before + (x + ((after + comma) + (rest + "]" + post)))
  {
  }

  lemma WalkOneElem(before: string, v: Value, gap: string, t: string, u: string, compress: Compressor)
    requires IsSpace(before) && v.Obj? && Legal(v) && Walk(t, compress) == Some(u)
    requires forall i :: 0 <= i < |gap| ==> gap[i] != ']' && gap[i] != '{'
    ensures Walk(before + (Print(v) + (gap + t)), compress) == Some(before + (Rewrite(Print(v), compress) + (gap + u)))
  {
    hide Walk, Rewrite, ObjectEnd;
    WalkCopies(gap, t, compress);
    ObjectEndIsExact(v, gap + t);
    WalkOneObject(Print(v), gap + t, compress);
    WalkCopies(before, Print(v) + (gap + t), compress);
  }

  // ----- the walk over all content fields ----------------------------------

  function RewriteContents(s: string, compress: Compressor): string
    decreases |s|
  {
    match StringField(s, "content")
    case None => s
    case Some(field) =>
      s[..field.0] + NewLiteral(s, field, compress) + RewriteContents(s[field.1 + 1..], compress)
  }

  /** The decoded texts that walk visits. */
  function Contents(s: string): seq<string>
    decreases |s|
  {
    match StringField(s, "content")
    case None => []
    case Some(field) => [FieldText(s, field)] + Contents(s[field.1 + 1..])
  }

  /** What replaces the literal of a field. */
  function NewLiteral(s: string, field: (nat, nat), compress: Compressor): string
    requires field.0 < field.1 < |s|
  {
    var text := FieldText(s, field);
    if compress(text) == text then s[field.0..field.1 + 1] else Encode(compress(text))
  }

  lemma NewLiteralShifted(payload: string, i: nat, cs: nat, ce: nat, compress: Compressor)
    requires i <= |payload| && cs < ce < |payload| - i
    ensures NewLiteral(payload[i..], (cs, ce), compress) == NewLiteral(payload, (i + cs, i + ce), compress)
  {
    hide Unescape, Encode;
    assert payload[i..][cs + 1..ce] == payload[i + cs + 1..i + ce];
    assert payload[i..][cs..ce + 1] == payload[i + cs..i + ce + 1];
  }

  lemma ContentStep(payload: string, i: nat, out: string, rest: string, whole: string, compress: Compressor)
      returns (next: string)
    requires i <= |payload| && rest == RewriteContents(payload[i..], compress) && whole == out + rest
    ensures match StringField(payload[i..], "content")
            case None => whole == out + payload[i..]
            case Some((cs, ce)) =>
              && next == RewriteContents(payload[i + ce + 1..], compress)
              && whole == out + payload[i..i + cs] + NewLiteral(payload, (i + cs, i + ce), compress) + next
  {
    hide *;
    next := "";
    ContentUnit(payload[i..], compress);
    if StringField(payload[i..], "content").Some? {
      var (cs, ce) := StringField(payload[i..], "content").value;
      next := RewriteContents(payload[i + ce + 1..], compress);
      NewLiteralShifted(payload, i, cs, ce, compress);
      assert payload[i..][ce + 1..] == payload[i + ce + 1..];
      assert payload[i..][..cs] == payload[i..i + cs];
      Regroup(out, payload[i..i + cs], NewLiteral(payload, (i + cs, i + ce), compress), next, rest, whole);
    }
  }

  lemma ContentUnit(s: string, compress: Compressor)
    ensures match StringField(s, "content")
            case None => RewriteContents(s, compress) == s
            case Some(field) =>
              RewriteContents(s, compress)
              == s[..field.0] + NewLiteral(s, field, compress) + RewriteContents(s[field.1 + 1..], compress)
  {
    hide StringField, NewLiteral;
  }

  lemma Regroup(out: string, a: string, b: string, c: string, part: string, whole: string)
    requires part == a + b + c && whole == out + part
    ensures whole == out + a + b + c
  {
  }

  lemma NothingLeft(compress: Compressor)
    ensures RewriteContents("", compress) == ""
  {
  }

  method CompressStructuredLogs(payload: string, compress: Compressor) returns (out: string)
    ensures out ==
            if |RewriteContents(payload, compress)| < |payload| then RewriteContents(payload, compress) else payload
  {
    hide RewriteContents, StringField, NewLiteral;
    out := "";
    var i := 0;
    assert payload[0..] == payload && payload[|payload|..] == "";
    NothingLeft(compress);
    ghost var whole := RewriteContents(payload, compress);
    ghost var rest := whole;
    while i < |payload|
      invariant 0 <= i <= |payload|
      invariant rest == RewriteContents(payload[i..], compress) && whole == out + rest
    {
      ghost var next := ContentStep(payload, i, out, rest, whole, compress);
      var cs, ce, ok := FindStringField(payload[i..], "content");
      if !ok {
        out := out + payload[i..];
        i := |payload|;
        rest := "";
        break;
      }
      cs, ce := cs + i, ce + i;
      out := out + payload[i..cs];
      var literal := RewriteLiteral(payload, cs, ce, compress);
      out := out + literal;
      i := ce + 1;
      rest := next;
    }
    if |out| >= |payload| {
      return payload;
    }
  }

  /** Decode, compress and re-encode one literal, or copy it quote by quote. */
  method RewriteLiteral(payload: string, cs: nat, ce: nat, compress: Compressor) returns (out: string)
    requires cs < ce < |payload|
    ensures out == NewLiteral(payload, (cs, ce), compress)
  {
    hide Unescape, Encode;
    var raw := payload[cs + 1..ce];
    var decoded := UnescapeJSONString(raw);
    var compressed := compress(decoded);
    if compressed == decoded {
      out := payload[cs..cs + 1] + raw + payload[ce..ce + 1];
      assert out == payload[cs..ce + 1];
    } else {
      out := JsonEncodeString(compressed);
    }
  }

  /** When no visited text changes, neither does any byte. */
  lemma {:induction false} UnchangedContents(s: string, compress: Compressor)
    requires forall text :: text in Contents(s) ==> compress(text) == text
    ensures RewriteContents(s, compress) == s
    decreases |s|
  {
    ContentsUnit(s);
    ContentUnit(s, compress);
    hide StringField, RewriteContents, Contents, FieldText;
    if StringField(s, "content").Some? {
      var field := StringField(s, "content").value;
      FieldInBounds(s);
      var rest := s[field.1 + 1..];
      assert FieldText(s, field) in Contents(s) && forall x :: x in Contents(rest) ==> x in Contents(s);
      UnchangedContents(rest, compress);
      assert NewLiteral(s, field, compress) == s[field.0..field.1 + 1];
      ThreePieces(s, field.0, field.1 + 1);
    }
  }

  lemma FieldInBounds(s: string)
    requires StringField(s, "content").Some?
    ensures var field := StringField(s, "content").value; field.0 < field.1 < |s|
  {
  }

  lemma ThreePieces(s: string, a: nat, b: nat)
    requires a <= b <= |s|
    ensures s[..a] + s[a..b] + s[b..] == s
  {
  }

  /** Scanning the rewritten bytes visits one text for each old one: the compressed text
      exactly when that is the old text, or when each of its control bytes has a short
      escape. */
  lemma {:induction false} RewrittenContentsReadBack(s: string, compress: Compressor)
      returns (before: seq<string>, after: seq<string>)
    ensures before == Contents(s) && after == Contents(RewriteContents(s, compress))
    ensures |after| == |before|
    ensures forall k :: 0 <= k < |before| ==>
              (after[k] == compress(before[k]) <==>
                compress(before[k]) == before[k] || AllShort(compress(before[k])))
    decreases |s|
  {
    hide *;
    ContentsUnit(s);
    ContentUnit(s, compress);
    before := Contents(s);
    if StringField(s, "content").None? {
      after := before;
      NoContents(s);
    } else {
      var field := StringField(s, "content").value;
      var text := FieldText(s, field);
      var tail := s[field.1 + 1..];
      assert before[0] == text && before[1..] == Contents(tail);
      assert forall x :: x in before[1..] ==> x in before;
      var beforeTail, afterTail := RewrittenContentsReadBack(tail, compress);
      var found := RewrittenFieldReadsBack(s, RewriteContents(tail, compress), compress);
      after := [found] + afterTail;
      ContentsUnit(RewriteContents(s, compress));
    }
  }

  lemma NoContents(s: string)
    requires StringField(s, "content").None?
    ensures Contents(s) == []
  {
    hide StringField;
  }

  lemma ContentsUnit(s: string)
    ensures match StringField(s, "content")
            case None => Contents(s) == []
            case Some(field) => Contents(s) == [FieldText(s, field)] + Contents(s[field.1 + 1..])
  {
    hide StringField, Unescape;
  }

  /** The first field after rewriting, in front of any tail. */
  lemma RewrittenFieldReadsBack(s: string, tail: string, compress: Compressor) returns (found: string)
    requires StringField(s, "content").Some?
    ensures var field := StringField(s, "content").value;
            var out := s[..field.0] + NewLiteral(s, field, compress) + tail;
            && StringField(out, "content").Some?
            && var field' := StringField(out, "content").value;
            && FieldText(out, field') == found
            && out[field'.1 + 1..] == tail
    ensures var text := FieldText(s, StringField(s, "content").value);
            found == compress(text) <==> compress(text) == text || AllShort(compress(text))
  {
    hide StringField, Unescape, EncodeBody, AllShort;
    var (open, close) := StringField(s, "content").value;
    var text := FieldText(s, (open, close));
    var out := s[..open] + NewLiteral(s, (open, close), compress) + tail;
    found := if compress(text) == text then text else Unescape(EncodeBody(compress(text)));
    if compress(text) == text {
      KeptFieldIsFound(s, tail);
      assert out == s[..close + 1] + tail;
      assert out[open + 1..close] == s[open + 1..close];
    } else {
      SplicedFieldIsFound(s, "content", compress(text), tail);
      var close' := open + 1 + |EncodeBody(compress(text))|;
      assert out[open + 1..close'] == EncodeBody(compress(text));
      DecodingUndoesEncoding(compress(text));
    }
  }

  lemma KeptFieldIsFound(s: string, tail: string)
    requires StringField(s, "content").Some?
    ensures StringField(s[..StringField(s, "content").value.1 + 1] + tail, "content") == StringField(s, "content")
  {
    hide OpenQuote, CloseQuote;
    var (open, close) := StringField(s, "content").value;
    var out := s[..close + 1] + tail;
    assert out[..open + 1] == s[..open + 1];
    OpenQuoteShared(s, out, "content", open + 1);
    assert out[open + 1..] == s[open + 1..close + 1] + tail;
    assert s[open + 1..] == s[open + 1..close + 1] + s[close + 1..];
    CloseQuotePrefix(s[open + 1..close + 1], s[close + 1..], tail);
  }

  lemma {:induction false} CloseQuotePrefix(x: string, y: string, z: string)
    requires CloseQuote(x + y).Some? && CloseQuote(x + y).value < |x|
    ensures CloseQuote(x + z) == CloseQuote(x + y)
  {
    assert (x + y)[0] == (x + z)[0] == x[0];
    if x[0] == '\\' {
      assert |x| >= 2;
      assert (x + y)[2..] == x[2..] + y && (x + z)[2..] == x[2..] + z;
      CloseQuotePrefix(x[2..], y, z);
    } else if x[0] != '"' {
      assert (x + y)[1..] == x[1..] + y && (x + z)[1..] == x[1..] + z;
      CloseQuotePrefix(x[1..], y, z);
    }
  }
}
