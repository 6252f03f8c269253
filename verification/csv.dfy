// The lossless compactor: a homogeneous array of objects written as CSV, and the
// reader of RFC 4180, section 2 (records ended by LF) that gets it all back.
module Csv {
  import opened Text
  import opened Order

  // ----- writing -----------------------------------------------------------

  predicate NeedsQuotes(f: string)
  {
    exists i :: 0 <= i < |f| && (f[i] == ',' || f[i] == '"' || f[i] == '\n' || f[i] == '\r')
  }

  function EscapeField(f: string): string
  {
    if NeedsQuotes(f) then "\"" + ReplaceAll(f, "\"", "\"\"") + "\"" else f
  }

  function RenderRow(row: seq<string>): string
  {
    if |row| == 0 then ""
    else if |row| == 1 then EscapeField(row[0])
    else EscapeField(row[0]) + "," + RenderRow(row[1..])
  }

  function Render(rows: seq<seq<string>>): string
  {
    if |rows| == 0 then "" else RenderRow(rows[0]) + "\n" + Render(rows[1..])
  }

  /** A JSON value as far as its cell goes: nothing for null, the text otherwise
      (strings as they are, booleans and numbers formatted, the rest as JSON). */
  datatype Value = Null | Shown(text: string)

  type Object = map<string, Value>

  function CellText(obj: Object, header: string): string
  {
    if header in obj && obj[header].Shown? then obj[header].text else ""
  }

  function Row(obj: Object, headers: seq<string>): seq<string>
  {
    seq(|headers|, i requires 0 <= i < |headers| => CellText(obj, headers[i]))
  }

  /** The header row, then one row per object. */
  function Table(objects: seq<Object>, headers: seq<string>): seq<seq<string>>
  {
    [headers] + seq(|objects|, k requires 0 <= k < |objects| => Row(objects[k], headers))
  }

  function AllKeys(objects: seq<Object>): set<string>
  {
    set k, o | o in objects && k in o.Keys :: k
  }

  lemma {:induction false} RenderRowPush(row: seq<string>, cell: string)
    requires |row| > 0
    ensures RenderRow(row + [cell]) == RenderRow(row) + "," + EscapeField(cell)
  {
    hide EscapeField;
    if |row| == 1 {
      assert (row + [cell])[1..] == [cell];
      assert RenderRow([cell]) == EscapeField(cell);
    } else {
      assert (row + [cell])[1..] == row[1..] + [cell];
      RenderRowPush(row[1..], cell);
      assert EscapeField(row[0]) + "," + (RenderRow(row[1..]) + "," + EscapeField(cell))
          == EscapeField(row[0]) + "," + RenderRow(row[1..]) + "," + EscapeField(cell);
    }
  }

  lemma {:induction false} RenderPush(rows: seq<seq<string>>, row: seq<string>)
    ensures Render(rows + [row]) == Render(rows) + RenderRow(row) + "\n"
  {
    hide RenderRow;
    if |rows| == 0 {
      assert rows + [row] == [row] && [row][1..] == [];
      assert Render([row]) == RenderRow(row) + "\n" + "";
    } else {
      assert (rows + [row])[1..] == rows[1..] + [row];
      RenderPush(rows[1..], row);
      assert RenderRow(rows[0]) + "\n" + (Render(rows[1..]) + RenderRow(row) + "\n")
          == RenderRow(rows[0]) + "\n" + Render(rows[1..]) + RenderRow(row) + "\n";
    }
  }

  method WriteRow(cells: seq<string>) returns (sb: string)
    ensures sb == RenderRow(cells)
  {
    hide EscapeField, RenderRow;
    sb := "";
    RenderRowShort("");
    for i := 0 to |cells|
      invariant sb == RenderRow(cells[..i]) + if 0 < i < |cells| then "," else ""
    {
      assert cells[..i + 1] == cells[..i] + [cells[i]];
      if i > 0 {
        RenderRowPush(cells[..i], cells[i]);
      } else {
        RenderRowShort(cells[0]);
        assert cells[..1] == [cells[0]];
      }
      sb := sb + EscapeField(cells[i]);
      if i < |cells| - 1 {
        sb := sb + ",";
      }
    }
    assert cells[..|cells|] == cells;
  }

  lemma RenderRowShort(f: string)
    ensures RenderRow([]) == "" && RenderRow([f]) == EscapeField(f)
  {
  }

  /** The table over the sorted keys of all objects, whatever order the maps were
      ranged over in. */
  method ConvertToCSV(objects: seq<Object>) returns (csv: string, headers: seq<string>)
    ensures StrictlySorted(headers) && Elements(headers, AllKeys(objects))
    ensures csv == Render(Table(objects, headers))
  {
    hide RenderRow;
    var headerMap: set<string> := {};
    for k := 0 to |objects|
      invariant headerMap == AllKeys(objects[..k])
    {
      assert objects[..k + 1] == objects[..k] + [objects[k]];
      headerMap := headerMap + objects[k].Keys;
    }
    assert objects[..|objects|] == objects;
    headers := SortedKeys(headerMap);
    var headerRow := WriteRow(headers);
    csv := headerRow + "\n";
    RenderPush([], headers);
    assert [] + [headers] == [headers];
    ghost var table := Table(objects, headers);
    for k := 0 to |objects|
      invariant csv == Render(table[..k + 1])
    {
      var row: seq<string> := [];
      for i := 0 to |headers|
        invariant row == Row(objects[k], headers)[..i]
      {
        var valStr := "";
        if headers[i] in objects[k] && objects[k][headers[i]].Shown? {
          valStr := objects[k][headers[i]].text;
        }
        row := row + [valStr];
      }
      assert row == table[k + 1];
      assert table[..k + 2] == table[..k + 1] + [row];
      RenderPush(table[..k + 1], row);
      var line := WriteRow(row);
      csv := csv + line + "\n";
    }
    assert table[..|objects| + 1] == table;
  }

  // ----- reading (RFC 4180) ------------------------------------------------

  function Cons(c: char, r: Option<(string, string)>): Option<(string, string)>
  {
    match r
    case None => None
    case Some((text, rest)) => Some(([c] + text, rest))
  }

  /** After an opening quote: the field's text and what follows its closing quote. */
  function ReadQuoted(s: string): (r: Option<(string, string)>)
    ensures r.Some? ==> |r.value.1| < |s|
  {
    if |s| == 0 then None
    else if s[0] != '"' then Cons(s[0], ReadQuoted(s[1..]))
    else if |s| > 1 && s[1] == '"' then Cons('"', ReadQuoted(s[2..]))
    else Some(("", s[1..]))
  }

  predicate Special(c: char)
  {
    c == ',' || c == '"' || c == '\n' || c == '\r'
  }

  function ReadPlain(s: string): (r: (string, string))
    ensures |r.1| <= |s|
  {
    if |s| == 0 || Special(s[0]) then ("", s)
    else
      var (text, rest) := ReadPlain(s[1..]);
      ([s[0]] + text, rest)
  }

  function ReadField(s: string): (r: Option<(string, string)>)
    ensures r.Some? ==> |r.value.1| <= |s|
  {
    if |s| > 0 && s[0] == '"' then ReadQuoted(s[1..]) else Some(ReadPlain(s))
  }

  /** One record: fields between commas, ended by LF. */
  function ReadRow(s: string): (r: Option<(seq<string>, string)>)
    ensures r.Some? ==> |r.value.1| < |s|
    decreases |s|
  {
    match ReadField(s)
    case None => None
    case Some((text, rest)) =>
      if |rest| == 0 then None
      else if rest[0] == '\n' then Some(([text], rest[1..]))
      else if rest[0] == ',' then
        match ReadRow(rest[1..])
        case None => None
        case Some((row, tail)) => Some(([text] + row, tail))
      else None
  }

  function Read(s: string): Option<seq<seq<string>>>
    decreases |s|
  {
    if |s| == 0 then Some([])
    else
      match ReadRow(s)
      case None => None
      case Some((row, rest)) =>
        match Read(rest)
        case None => None
        case Some(rows) => Some([row] + rows)
  }

  // ----- round trip --------------------------------------------------------

  lemma ReadDoubledQuote(rest: string, f: string, t: string)
    requires ReadQuoted(rest) == Some((f, t))
    ensures ReadQuoted("\"\"" + rest) == Some((['"'] + f, t))
  {
    assert ("\"\"" + rest)[2..] == rest;
  }

  lemma ReadPlainChar(c: char, rest: string, f: string, t: string)
    requires c != '"' && ReadQuoted(rest) == Some((f, t))
    ensures ReadQuoted([c] + rest) == Some(([c] + f, t))
  {
    assert ([c] + rest)[1..] == rest;
  }

  lemma QuoteEnds(t: string)
    requires |t| > 0 ==> t[0] != '"'
    ensures ReadQuoted(ReplaceAll("", "\"", "\"\"") + ("\"" + t)) == Some(("", t))
  {
    assert "" + ("\"" + t) == "\"" + t && ("\"" + t)[1..] == t;
  }

  lemma Associative(a: string, b: string, c: string)
    ensures (a + b) + c == a + (b + c)
  {
  }

  lemma {:induction false} ReadQuotedField(f: string, t: string)
    requires |t| > 0 ==> t[0] != '"'
    ensures ReadQuoted(ReplaceAll(f, "\"", "\"\"") + ("\"" + t)) == Some((f, t))
  {
    hide ReadQuoted, ReplaceAll;
    if |f| == 0 {
      QuoteEnds(t);
      assert f == "";
    } else {
      var body, tail := ReplaceAll(f[1..], "\"", "\"\""), "\"" + t;
      ReadQuotedField(f[1..], t);
      DoubledFront(f);
      assert f == [f[0]] + f[1..];
      if f[0] == '"' {
        Associative("\"\"", body, tail);
        ReadDoubledQuote(body + tail, f[1..], t);
      } else {
        Associative([f[0]], body, tail);
        ReadPlainChar(f[0], body + tail, f[1..], t);
      }
    }
  }

  lemma DoubledFront(f: string)
    requires |f| > 0
    ensures ReplaceAll(f, "\"", "\"\"") == (if f[0] == '"' then "\"\"" else [f[0]]) + ReplaceAll(f[1..], "\"", "\"\"")
  {
    assert f == [f[0]] + f[1..];
    assert "\"" <= f <==> f[0] == '"';
  }

  lemma {:induction false} ReadPlainField(f: string, t: string)
    requires (forall i :: 0 <= i < |f| ==> !Special(f[i])) && |t| > 0 && Special(t[0])
    ensures ReadPlain(f + t) == (f, t)
  {
    if |f| == 0 {
      assert f + t == t;
    } else {
      assert (f + t)[1..] == f[1..] + t && f == [f[0]] + f[1..];
      ReadPlainField(f[1..], t);
    }
  }

  /** A written field in front of a comma or an LF reads back as itself. */
  lemma ReadEscapedField(f: string, t: string)
    requires |t| > 0 && (t[0] == ',' || t[0] == '\n')
    ensures ReadField(EscapeField(f) + t) == Some((f, t))
  {
    hide ReadQuoted, ReadPlain, ReplaceAll;
    if NeedsQuotes(f) {
      var body := ReplaceAll(f, "\"", "\"\"");
      ReadQuotedField(f, t);
      Quoted(body, t);
    } else {
      assert forall i :: 0 <= i < |f| ==> !Special(f[i]);
      ReadPlainField(f, t);
      assert (f + t)[0] == if |f| > 0 then f[0] else t[0];
    }
  }

  lemma Quoted(body: string, t: string)
    ensures var s := "\"" + body + "\"" + t; s[0] == '"' && s[1..] == body + ("\"" + t)
  {
  }

  lemma {:induction false} ReadRenderedRow(row: seq<string>, t: string)
    requires |row| > 0
    ensures ReadRow(RenderRow(row) + ("\n" + t)) == Some((row, t))
  {
    hide ReadField, EscapeField;
    if |row| == 1 {
      ReadEscapedField(row[0], "\n" + t);
      assert RenderRow(row) + ("\n" + t) == EscapeField(row[0]) + ("\n" + t);
      assert ("\n" + t)[1..] == t && row == [row[0]];
    } else {
      var rest := "," + (RenderRow(row[1..]) + ("\n" + t));
      ReadRenderedRow(row[1..], t);
      ReadEscapedField(row[0], rest);
      assert RenderRow(row) + ("\n" + t) == EscapeField(row[0]) + rest;
      assert rest[1..] == RenderRow(row[1..]) + ("\n" + t);
      assert row == [row[0]] + row[1..];
    }
  }

  /** A row without fields is written like a row with one empty field. */
  lemma EmptyRowReadsAsBlank(t: string)
    ensures ReadRow(RenderRow([]) + ("\n" + t)) == Some(([""], t))
  {
    assert "" + ("\n" + t) == "\n" + t && ("\n" + t)[1..] == t;
  }

  /** Reading a rendered table gives the table back, with every cell's text, for
      exactly the tables without empty rows. */
  lemma {:induction false} ReadRendered(rows: seq<seq<string>>)
    ensures Read(Render(rows)).Some? && |Read(Render(rows)).value| == |rows|
    ensures forall k :: 0 <= k < |rows| ==> Read(Render(rows)).value[k] == if |rows[k]| > 0 then rows[k] else [""]
  {
    hide ReadRow, RenderRow;
    if |rows| > 0 {
      var t := Render(rows[1..]);
      ReadRendered(rows[1..]);
      assert Render(rows) == RenderRow(rows[0]) + ("\n" + t);
      if |rows[0]| > 0 {
        ReadRenderedRow(rows[0], t);
      } else {
        EmptyRowReadsAsBlank(t);
      }
    }
  }

  /** The written text of an array parses back to its header row and one row per
      object exactly when some object has a key. */
  lemma CsvRoundTrip(objects: seq<Object>, headers: seq<string>)
    requires StrictlySorted(headers) && Elements(headers, AllKeys(objects))
    ensures Read(Render(Table(objects, headers))) == Some(Table(objects, headers)) <==> AllKeys(objects) != {}
  {
    var table := Table(objects, headers);
    ReadRendered(table);
    assert |headers| > 0 ==> headers[0] in headers;
    if AllKeys(objects) != {} {
      var k :| k in AllKeys(objects);
      assert k in headers;
      assert Read(Render(table)).value == table;
    } else {
      assert table[0] == [];
    }
  }

  /** Every cell can be looked up again, row k + 1, column of the key: the value's text,
      or nothing where the key is missing or its value is null. */
  lemma CellsSurvive(objects: seq<Object>, headers: seq<string>, k: nat, key: string)
    requires StrictlySorted(headers) && Elements(headers, AllKeys(objects))
    requires k < |objects| && key in AllKeys(objects)
    ensures var read := Read(Render(Table(objects, headers)));
            && read.Some? && |read.value| == |objects| + 1 && read.value[0] == headers
            && exists c :: 0 <= c < |headers| && headers[c] == key
                 && |read.value[k + 1]| == |headers|
                 && (key !in objects[k] || objects[k][key] == Null ==> read.value[k + 1][c] == "")
                 && (key in objects[k] && objects[k][key] != Null ==> read.value[k + 1][c] == objects[k][key].text)
  {
    CsvRoundTrip(objects, headers);
    assert key in headers;
    var c :| 0 <= c < |headers| && headers[c] == key;
    assert Table(objects, headers)[k + 1] == Row(objects[k], headers);
  }

  function QuoteCount(f: string): nat
  {
    if |f| == 0 then 0 else (if f[0] == '"' then 1 else 0) + QuoteCount(f[1..])
  }

  /** A field is written as it is unless it holds a comma, a quote, a CR or an LF; only then
      is it longer, by two quotes and one for each of its own. */
  lemma OnlySpecialFieldsGrow(f: string)
    ensures EscapeField(f) == f <==> forall i :: 0 <= i < |f| ==> f[i] !in ",\"\r\n"
    ensures EscapeField(f) != f ==> |EscapeField(f)| == |f| + 2 + QuoteCount(f)
  {
    QuotesDoubled(f);
    if NeedsQuotes(f) {
      assert |EscapeField(f)| > |f|;
    }
  }

  lemma {:induction false} QuotesDoubled(f: string)
    ensures |ReplaceAll(f, "\"", "\"\"")| == |f| + QuoteCount(f)
  {
    if |f| > 0 {
      QuotesDoubled(f[1..]);
      if f[0] == '"' {
        ReplaceHit("\"", f[1..], "\"\"");
        assert f == "\"" + f[1..];
      } else {
        assert f == [f[0]] + f[1..];
        assert f[0] != "\""[0];
        ReplaceMiss(f[0], f[1..], "\"", "\"\"");
      }
    }
  }
}
