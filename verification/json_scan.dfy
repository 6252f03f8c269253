// The brace scanner that cuts message objects out of a payload without parsing
// JSON, and the grammar it has to be right about.
module JsonScan {
  import opened Text

  // ----- the scanner -------------------------------------------------------

  /** The scanner's three variables, or the fact that it has returned. */
  datatype State = At(depth: int, inString: bool, escape: bool) | Closed

  function Step(st: State, c: char): State
  {
    if st.Closed? then Closed
    else if st.escape then st.(escape := false)
    else if c == '\\' && st.inString then st.(escape := true)
    else if c == '"' then st.(inString := !st.inString)
    else if st.inString then st
    else if c == '{' then st.(depth := st.depth + 1)
    else if c == '}' then (if st.depth == 1 then Closed else st.(depth := st.depth - 1))
    else st
  }

  /** The state after reading all of `s`. */
  function Run(s: string, st: State): State
  {
    if |s| == 0 then st else Run(s[1..], Step(st, s[0]))
  }

  /** The offset at which the scanner, started in `st`, returns. */
  function Scan(s: string, st: State): (r: Option<nat>)
    ensures r.Some? ==> r.value < |s|
  {
    if |s| == 0 then None
    else if Step(st, s[0]) == Closed then Some(0)
    else Shift(1, Scan(s[1..], Step(st, s[0])))
  }

  const START := At(0, false, false)

  /** The end of the object that starts `s`, relative to the start. */
  function ObjectEnd(s: string): (r: Option<nat>)
    ensures r.Some? ==> r.value < |s|
  {
    if |s| == 0 || s[0] != '{' then None else Scan(s, START)
  }

  lemma ScanStep(payload: string, i: nat, st: State, n: nat, whole: Option<nat>)
    requires i < |payload| && whole == Shift(n, Scan(payload[i..], st))
    ensures var next := Step(st, payload[i]);
            if next == Closed then whole == Some(n) else whole == Shift(n + 1, Scan(payload[i + 1..], next))
  {
    hide Step;
    assert payload[i..][0] == payload[i] && payload[i..][1..] == payload[i + 1..];
  }

  lemma NothingLeft(st: State, n: nat)
    ensures Shift(n, Scan("", st)) == None
  {
  }

  method FindObjectEnd(payload: string, start: nat) returns (end: nat, ok: bool)
    ensures ok == (start < |payload| && ObjectEnd(payload[start..]).Some?)
    ensures ok ==> end == start + ObjectEnd(payload[start..]).value && end < |payload|
    ensures !ok ==> end == 0
  {
    if start >= |payload| || payload[start] != '{' {
      return 0, false;
    }
    var depth, inString, escape := 0, false, false;
    var i := start;
    ghost var whole := ObjectEnd(payload[start..]);
    assert whole == Shift(0, Scan(payload[start..], START));
    hide Scan, ObjectEnd, Shift;
    while i < |payload|
      invariant start <= i <= |payload|
      invariant whole == Shift(i - start, Scan(payload[i..], At(depth, inString, escape)))
    {
      var c := payload[i];
      ScanStep(payload, i, At(depth, inString, escape), i - start, whole);
      i := i + 1;
      if escape {
        escape := false;
        continue;
      }
      if c == '\\' && inString {
        escape := true;
        continue;
      }
      if c == '"' {
        inString := !inString;
        continue;
      }
      if inString {
        continue;
      }
      if c == '{' {
        depth := depth + 1;
        continue;
      }
      if c == '}' {
        depth := depth - 1;
        if depth == 0 {
          return i - 1, true;
        }
      }
    }
    NothingLeft(At(depth, inString, escape), i - start);
    assert payload[|payload|..] == "";
    return 0, false;
  }

  lemma {:induction false} RunConcat(x: string, y: string, st: State)
    ensures Run(x + y, st) == Run(y, Run(x, st))
  {
    if |x| == 0 {
      assert x + y == y;
    } else {
      assert (x + y)[0] == x[0] && (x + y)[1..] == x[1..] + y;
      RunConcat(x[1..], y, Step(st, x[0]));
    }
  }

  lemma {:induction false} RunClosed(x: string)
    ensures Run(x, Closed) == Closed
  {
    if |x| > 0 {
      RunClosed(x[1..]);
    }
  }

  /** Bytes that do not make the scanner return are simply passed. */
  lemma {:induction false} ScanAfter(x: string, y: string, st: State)
    requires Run(x, st) != Closed
    ensures Scan(x + y, st) == Shift(|x|, Scan(y, Run(x, st)))
  {
    if |x| == 0 {
      assert x + y == y;
    } else {
      assert (x + y)[0] == x[0] && (x + y)[1..] == x[1..] + y;
      RunClosed(x[1..]);
      ScanAfter(x[1..], y, Step(st, x[0]));
    }
  }

  /** What follows the closing brace is never looked at. */
  lemma {:induction false} ScanIgnoresTheRest(x: string, y: string, st: State)
    requires Scan(x, st).Some?
    ensures Scan(x + y, st) == Scan(x, st)
  {
    assert (x + y)[0] == x[0] && (x + y)[1..] == x[1..] + y;
    if Step(st, x[0]) != Closed {
      ScanIgnoresTheRest(x[1..], y, Step(st, x[0]));
    }
  }

  // ----- JSON texts (RFC 8259, sections 2, 4, 5 and 7) ----------------------

  predicate IsSpace(ws: string)
  {
    forall i :: 0 <= i < |ws| ==> ws[i] == ' ' || ws[i] == '\t' || ws[i] == '\n' || ws[i] == '\r'
  }

  /** One character of a string: itself, a two-character escape, or \uXXXX. */
  datatype Part = Plain(c: char) | Escaped(c: char) | Unicode(hex: string)

  datatype Value =
    | Atom(text: string)
    | Str(parts: seq<Part>)
    | Arr(open: string, elems: Elems)
    | Obj(open: string, members: Members)

  datatype Elems = NoElems | Elem(before: string, v: Value, after: string, rest: Elems)

  datatype Members =
    | NoMembers
    | Member(before: string, key: seq<Part>, afterKey: string, beforeValue: string,
             v: Value, after: string, rest: Members)

  /** A character of a number or of `true`, `false`, `null`. */
  predicate AtomChar(c: char)
  {
    'a' <= c <= 'z' || 'A' <= c <= 'Z' || '0' <= c <= '9' || c == '+' || c == '-' || c == '.'
  }

  predicate HexDigit(c: char)
  {
    '0' <= c <= '9' || 'a' <= c <= 'f' || 'A' <= c <= 'F'
  }

  predicate LegalPart(p: Part)
  {
    match p
    case Plain(c) => c >= ' ' && c != '"' && c != '\\'
    case Escaped(c) => c in "\"\\/bfnrt"
    case Unicode(hex) => |hex| == 4 && forall i :: 0 <= i < 4 ==> HexDigit(hex[i])
  }

  predicate LegalParts(parts: seq<Part>)
  {
    forall i :: 0 <= i < |parts| ==> LegalPart(parts[i])
  }

  predicate Legal(v: Value)
  {
    match v
    case Atom(text) => |text| > 0 && forall i :: 0 <= i < |text| ==> AtomChar(text[i])
    case Str(parts) => LegalParts(parts)
    case Arr(open, elems) => IsSpace(open) && LegalElems(elems)
    case Obj(open, members) => IsSpace(open) && LegalMembers(members)
  }

  predicate LegalElems(es: Elems)
  {
    es.Elem? ==> IsSpace(es.before) && Legal(es.v) && IsSpace(es.after) && LegalElems(es.rest)
  }

  predicate LegalMembers(ms: Members)
  {
    ms.Member? ==>
      && IsSpace(ms.before) && LegalParts(ms.key) && IsSpace(ms.afterKey)
      && IsSpace(ms.beforeValue) && Legal(ms.v) && IsSpace(ms.after)
      && LegalMembers(ms.rest)
  }

  function PrintPart(p: Part): string
  {
    match p
    case Plain(c) => [c]
    case Escaped(c) => ['\\', c]
    case Unicode(hex) => ['\\', 'u'] + hex
  }

  function PrintParts(parts: seq<Part>): string
  {
    if |parts| == 0 then "" else PrintPart(parts[0]) + PrintParts(parts[1..])
  }

  function PrintString(parts: seq<Part>): string
  {
    "\"" + (PrintParts(parts) + "\"")
  }

  function Print(v: Value): string
  {
    match v
    case Atom(text) => text
    case Str(parts) => PrintString(parts)
    case Arr(open, elems) => "[" + (open + (PrintElems(elems) + "]"))
    case Obj(open, members) => "{" + (open + (PrintMembers(members) + "}"))
  }

  function PrintElems(es: Elems): string
  {
    match es
    case NoElems => ""
    case Elem(before, v, after, rest) =>
      before + (Print(v) + (after + ((if rest.Elem? then "," else "") + PrintElems(rest))))
  }

  function PrintMembers(ms: Members): string
  {
    match ms
    case NoMembers => ""
    case Member(before, key, afterKey, beforeValue, v, after, rest) =>
      before + (PrintString(key) + (afterKey + (":" + (beforeValue + (Print(v) + (after
        + ((if rest.Member? then "," else "") + PrintMembers(rest))))))))
  }

  // ----- the scanner passes over every legal value -------------------------

  /** From outside any string, `x` leaves the scanner as it found it. */
  ghost predicate Crosses(x: string, depth: int)
  {
    Run(x, At(depth, false, false)) == At(depth, false, false)
  }

  lemma CrossesConcat(x: string, y: string, depth: int)
    requires Crosses(x, depth) && Crosses(y, depth)
    ensures Crosses(x + y, depth)
  {
    RunConcat(x, y, At(depth, false, false));
  }

  lemma {:induction false} CrossesDull(x: string, depth: int)
    requires forall i :: 0 <= i < |x| ==> x[i] != '"' && x[i] != '{' && x[i] != '}'
    ensures Crosses(x, depth)
  {
    if |x| > 0 {
      CrossesDull(x[1..], depth);
    }
  }

  lemma {:induction false} InsideString(x: string, depth: int)
    requires forall i :: 0 <= i < |x| ==> x[i] != '"' && x[i] != '\\'
    ensures Run(x, At(depth, true, false)) == At(depth, true, false)
  {
    if |x| > 0 {
      InsideString(x[1..], depth);
    }
  }

  lemma InsidePart(p: Part, depth: int)
    requires LegalPart(p)
    ensures Run(PrintPart(p), At(depth, true, false)) == At(depth, true, false)
  {
    match p
    case Plain(c) =>
      InsideString([c], depth);
    case Escaped(c) =>
      assert PrintPart(p)[1..] == [c];
      assert Run([c], At(depth, true, true)) == Run([c][1..], At(depth, true, false));
    case Unicode(hex) =>
      assert PrintPart(p)[1..] == ['u'] + hex && (['u'] + hex)[1..] == hex;
      InsideString(hex, depth);
  }

  lemma {:induction false} InsideParts(parts: seq<Part>, depth: int)
    requires LegalParts(parts)
    ensures Run(PrintParts(parts), At(depth, true, false)) == At(depth, true, false)
  {
    if |parts| > 0 {
      InsidePart(parts[0], depth);
      InsideParts(parts[1..], depth);
      RunConcat(PrintPart(parts[0]), PrintParts(parts[1..]), At(depth, true, false));
    }
  }

  lemma CrossesString(parts: seq<Part>, depth: int)
    requires LegalParts(parts)
    ensures Crosses(PrintString(parts), depth)
  {
    InsideParts(parts, depth);
    assert PrintString(parts)[1..] == PrintParts(parts) + "\"";
    RunConcat(PrintParts(parts), "\"", At(depth, true, false));
    assert "\""[1..] == "";
  }

  lemma CrossesBraces(x: string, depth: int)
    requires Crosses(x, depth + 1) && depth >= 1
    ensures Crosses("{" + (x + "}"), depth)
  {
    RunConcat(x, "}", At(depth + 1, false, false));
    assert ("{" + (x + "}"))[1..] == x + "}";
    assert "}"[1..] == "";
  }

  lemma {:induction false} CrossesValue(v: Value, depth: int)
    requires Legal(v) && depth >= 1
    ensures Crosses(Print(v), depth)
    decreases v
  {
    match v
    case Atom(text) =>
      CrossesDull(text, depth);
    case Str(parts) =>
      CrossesString(parts, depth);
    case Arr(open, elems) =>
      CrossesDull("[", depth);
      CrossesDull(open, depth);
      CrossesDull("]", depth);
      CrossesElems(elems, depth);
      CrossesConcat(PrintElems(elems), "]", depth);
      CrossesConcat(open, PrintElems(elems) + "]", depth);
      CrossesConcat("[", open + (PrintElems(elems) + "]"), depth);
    case Obj(open, members) =>
      CrossesDull(open, depth + 1);
      CrossesMembers(members, depth + 1);
      CrossesConcat(open, PrintMembers(members), depth + 1);
      CrossesBraces(open + PrintMembers(members), depth);
      assert open + (PrintMembers(members) + "}") == (open + PrintMembers(members)) + "}";
  }

  lemma {:induction false} CrossesElems(es: Elems, depth: int)
    requires LegalElems(es) && depth >= 1
    ensures Crosses(PrintElems(es), depth)
    decreases es
  {
    match es
    case NoElems =>
      CrossesDull("", depth);
    case Elem(before, v, after, rest) =>
      var comma := if rest.Elem? then "," else "";
      CrossesDull(before, depth);
      CrossesValue(v, depth);
      CrossesDull(after, depth);
      CrossesDull(comma, depth);
      CrossesElems(rest, depth);
      CrossesConcat(comma, PrintElems(rest), depth);
      CrossesConcat(after, comma + PrintElems(rest), depth);
      CrossesConcat(Print(v), after + (comma + PrintElems(rest)), depth);
      CrossesConcat(before, Print(v) + (after + (comma + PrintElems(rest))), depth);
  }

  lemma {:induction false} CrossesMembers(ms: Members, depth: int)
    requires LegalMembers(ms) && depth >= 1
    ensures Crosses(PrintMembers(ms), depth)
    decreases ms
  {
    match ms
    case NoMembers =>
      CrossesDull("", depth);
    case Member(before, key, afterKey, beforeValue, v, after, rest) =>
      var comma := if rest.Member? then "," else "";
      CrossesDull(before, depth);
      CrossesString(key, depth);
      CrossesDull(afterKey, depth);
      CrossesDull(":", depth);
      CrossesDull(beforeValue, depth);
      CrossesValue(v, depth);
      CrossesDull(after, depth);
      CrossesDull(comma, depth);
      CrossesMembers(rest, depth);
      var tail := comma + PrintMembers(rest);
      CrossesConcat(comma, PrintMembers(rest), depth);
      CrossesConcat(after, tail, depth);
      CrossesConcat(Print(v), after + tail, depth);
      CrossesConcat(beforeValue, Print(v) + (after + tail), depth);
      CrossesConcat(":", beforeValue + (Print(v) + (after + tail)), depth);
      CrossesConcat(afterKey, ":" + (beforeValue + (Print(v) + (after + tail))), depth);
      CrossesConcat(PrintString(key), afterKey + (":" + (beforeValue + (Print(v) + (after + tail)))), depth);
      CrossesConcat(before, PrintString(key) + (afterKey + (":" + (beforeValue + (Print(v) + (after + tail))))), depth);
  }

  /** Whatever follows a legal object, its end is its own closing brace. */
  lemma ObjectEndIsExact(v: Value, post: string)
    requires v.Obj? && Legal(v)
    ensures ObjectEnd(Print(v) + post) == Some(|Print(v)| - 1)
  {
    var x := v.open + PrintMembers(v.members);
    CrossesDull(v.open, 1);
    CrossesMembers(v.members, 1);
    CrossesConcat(v.open, PrintMembers(v.members), 1);
    assert Print(v) + post == "{" + (x + ("}" + post));
    ScanAfter(x, "}" + post, At(1, false, false));
    assert ("{" + (x + ("}" + post)))[1..] == x + ("}" + post);
  }

  /** The scanner finds the object's closing brace at any offset. */
  lemma FoundAtAnyOffset(pre: string, v: Value, post: string)
    requires v.Obj? && Legal(v)
    ensures ObjectEnd((pre + Print(v) + post)[|pre|..]) == Some(|Print(v)| - 1)
  {
    ObjectEndIsExact(v, post);
    assert (pre + Print(v) + post)[|pre|..] == Print(v) + post;
  }

  /** An object cut short anywhere is reported as unterminated. */
  lemma TruncatedObjectHasNoEnd(v: Value, k: nat)
    requires v.Obj? && Legal(v) && k < |Print(v)|
    ensures ObjectEnd(Print(v)[..k]) == None
  {
    var s := Print(v)[..k];
    if ObjectEnd(s).Some? {
      ScanIgnoresTheRest(s, Print(v)[k..], START);
      assert s + Print(v)[k..] == Print(v) == Print(v) + "";
      ObjectEndIsExact(v, "");
    }
  }
}
