// The store of offloaded originals: what the row dropper, the diff compressor and the
// log compressor save under content-derived keys, and what a later retrieve call
// gets back for such a key.
module CompressionStore {
  import opened Text
  import opened Order
  import opened Csv
  import LogSelection

  /** SHA-256 in hex, cut to 12 and to 32 digits. */
  datatype Hashes = Hashes(short: string -> string, long: string -> string)

  ghost predicate Widths(h: Hashes)
  {
    (forall s :: |h.short(s)| == 12) && (forall s :: |h.long(s)| == 32)
  }

  class InMemoryStore {
    var entries: map<string, string>

    constructor ()
      ensures entries == map[]
    {
      entries := map[];
    }

    method Save(key: string, value: string) returns (k: string)
      modifies this
      ensures k == key && entries == old(entries)[key := value]
    {
      entries := entries[key := value];
      return key;
    }

    method Lookup(key: string) returns (value: Option<string>)
      ensures value == if key in entries then Some(entries[key]) else None
    {
      if key !in entries {
        return None;
      }
      return Some(entries[key]);
    }

    method Reset()
      modifies this
      ensures entries == map[]
    {
      entries := map[];
    }
  }

  // ----- dropping rows -----------------------------------------------------

  /** A field value: its JSON text and what a CSV cell shows of it. */
  datatype Field = Field(json: string, cell: Value)

  datatype Row = Obj(fields: map<string, Field>) | NotObj(json: string)

  /** encoding/json, and trimming of white space. */
  datatype Codec = Codec(trim: string -> string, parse: string -> Option<seq<Row>>, marshal: seq<Row> -> string)

  function FirstCount(n: nat): nat
  {
    if n * 3 / 10 < 1 then 1 else n * 3 / 10
  }

  function LastCount(n: nat): nat
  {
    if n * 3 / 20 < 1 then 1 else n * 3 / 20
  }

  /** From five rows on the "nothing left to drop" guard never fires. */
  lemma SomethingIsDropped(n: nat)
    requires n >= 5
    ensures FirstCount(n) + LastCount(n) < n
  {
  }

  function Head(rows: seq<Row>): seq<Row>
    requires |rows| >= 5
  {
    SomethingIsDropped(|rows|);
    rows[..FirstCount(|rows|)]
  }

  function DroppedRows(rows: seq<Row>): seq<Row>
    requires |rows| >= 5
  {
    SomethingIsDropped(|rows|);
    rows[FirstCount(|rows|)..|rows| - LastCount(|rows|)]
  }

  function Tail(rows: seq<Row>): seq<Row>
    requires |rows| >= 5
  {
    SomethingIsDropped(|rows|);
    rows[|rows| - LastCount(|rows|)..]
  }

  function Sentinel(key: string, dropped: nat): Row
  {
    var text := "<<ccr:" + key + " " + LogSelection.Decimal(dropped) + "_rows_offloaded>>";
    Obj(map["_ccr_dropped" := Field("\"" + text + "\"", Shown(text))])
  }

  function AsObject(fields: map<string, Field>): Object
  {
    map k | k in fields :: fields[k].cell
  }

  function Objects(rows: seq<Row>): seq<Object>
    requires forall r :: r in rows ==> r.Obj?
  {
    seq(|rows|, i requires 0 <= i < |rows| => assert rows[i] in rows; AsObject(rows[i].fields))
  }

  function KeyTotal(objects: seq<Object>): nat
  {
    if |objects| == 0 then 0 else KeyTotal(objects[..|objects| - 1]) + |objects[|objects| - 1]|
  }

  predicate Bracketed(t: string)
  {
    |t| > 0 && t[0] == '[' && t[|t| - 1] == ']'
  }

  /** Every gate before compaction: an array text of at least 800 bytes and five rows,
      all objects, that share 80 per cent of the keys on average. */
  predicate Crushable(c: Codec, trimmed: string)
  {
    && Bracketed(trimmed)
    && c.parse(trimmed).Some?
    && var rows := c.parse(trimmed).value;
       && |rows| >= 5 && |trimmed| / 4 >= 200
       && (forall r :: r in rows ==> r.Obj?)
       && AllKeys(Objects(rows)) != {}
       && 10 * KeyTotal(Objects(rows)) >= 8 * |AllKeys(Objects(rows))| * |rows|
  }

  predicate CsvPays(trimmed: string, csv: string)
  {
    100 * (|trimmed| - |csv|) >= 15 * |trimmed|
  }

  /** The text holds the first and last rows of the array and one object between them
      whose one field names a key and the number of rows left out, and under that key the
      store holds the whole array. */
  ghost predicate RowsGaveWay(c: Codec, h: Hashes, rows: seq<Row>, trimmed: string, text: string,
                              entries: map<string, string>, key: string)
  {
    exists i: nat, j: nat, count: string :: GaveWay(c, h, rows, trimmed, text, entries, key, i, j, count)
  }

  ghost predicate GaveWay(c: Codec, h: Hashes, rows: seq<Row>, trimmed: string, text: string,
                          entries: map<string, string>, key: string, i: nat, j: nat, count: string)
  {
    && 0 < i < j < |rows|
    && (i == 1 || 10 * i <= 3 * |rows|) && 3 * |rows| < 10 * (i + 1)
    && (|rows| - j == 1 || 20 * (|rows| - j) <= 3 * |rows|) && 3 * |rows| < 20 * (|rows| - j + 1)
    && key == h.short(c.marshal(rows[i..j])) && LogSelection.Number(count) == j - i
    && text == c.marshal(rows[..i] + [MarkerRow("<<ccr:" + key + " " + count + "_rows_offloaded>>")] + rows[j..])
    && key in entries && entries[key] == trimmed
  }

  function MarkerRow(marker: string): Row
  {
    Obj(map["_ccr_dropped" := Field("\"" + marker + "\"", Shown(marker))])
  }

  datatype Crushed = Passthrough | CsvCompaction(csv: string) | RowDrop(text: string)

  /** Anything but a crushable array passes; a compact table replaces it outright;
      otherwise the middle rows give way to one sentinel that names the key under
      which the whole text now lies. */
  method TryCrushJSONArray(contentStr: string, c: Codec, h: Hashes, store: InMemoryStore)
      returns (r: Crushed, ghost headers: seq<string>)
    modifies store
    ensures var trimmed := c.trim(contentStr);
            && (!Crushable(c, trimmed) <==> r == Passthrough)
            && (Crushable(c, trimmed) ==>
                  var rows := c.parse(trimmed).value;
                  var csv := Render(Table(Objects(rows), headers));
                  && StrictlySorted(headers) && Elements(headers, AllKeys(Objects(rows)))
                  && r == (if CsvPays(trimmed, csv) then CsvCompaction(csv) else RowDrop(Shortened(c, h, rows))))
            && store.entries == if r.RowDrop? then old(store.entries)[RowsKey(c, h, c.parse(trimmed).value) := trimmed]
                                else old(store.entries)
    ensures r.RowDrop? ==>
              exists key :: RowsGaveWay(c, h, c.parse(c.trim(contentStr)).value, c.trim(contentStr), r.text,
                                        store.entries, key)
  {
    hide Render, Table, StrictlySorted, Elements;
    headers := [];
    var trimmed := c.trim(contentStr);
    if !(|trimmed| > 0 && trimmed[0] == '[') || !(|trimmed| > 0 && trimmed[|trimmed| - 1] == ']') {
      return Passthrough, headers;
    }
    var rawArray := c.parse(trimmed);
    if rawArray.None? {
      return Passthrough, headers;
    }
    var rows := rawArray.value;
    if |rows| < 5 {
      return Passthrough, headers;
    }
    if |trimmed| / 4 < 200 {
      return Passthrough, headers;
    }
    var allObjects, objects := CollectObjects(rows);
    if !allObjects {
      return Passthrough, headers;
    }
    var allKeys, matched := KeySimilarity(objects);
    if allKeys == {} {
      return Passthrough, headers;
    }
    if 10 * matched < 8 * |allKeys| * |objects| {
      return Passthrough, headers;
    }
    assert Crushable(c, trimmed);
    var csvString;
    csvString, headers := ConvertToCSV(objects);
    if 100 * (|trimmed| - |csvString|) >= 15 * |trimmed| {
      return CsvCompaction(csvString), headers;
    }
    var text := DropRows(c, h, rows, trimmed, store);
    MarkerNamesTheKey(c, h, rows, trimmed, text, store.entries);
    r := RowDrop(text);
  }

  method CollectObjects(rows: seq<Row>) returns (allObjects: bool, objects: seq<Object>)
    ensures allObjects <==> forall r :: r in rows ==> r.Obj?
    ensures allObjects ==> objects == Objects(rows)
  {
    objects := [];
    for i := 0 to |rows|
      invariant forall k :: 0 <= k < i ==> rows[k].Obj?
      invariant |objects| == i && forall k :: 0 <= k < i ==> objects[k] == AsObject(rows[k].fields)
    {
      if rows[i].NotObj? {
        assert rows[i] in rows;
        return false, objects;
      }
      objects := objects + [AsObject(rows[i].fields)];
    }
    return true, objects;
  }

  /** Every key of an object is among all the keys, so what matches is all it has. */
  method KeySimilarity(objects: seq<Object>) returns (allKeys: set<string>, matched: nat)
    ensures allKeys == AllKeys(objects) && matched == KeyTotal(objects)
  {
    allKeys := {};
    for i := 0 to |objects|
      invariant allKeys == AllKeys(objects[..i])
    {
      assert objects[..i + 1] == objects[..i] + [objects[i]];
      allKeys := allKeys + objects[i].Keys;
    }
    assert objects[..|objects|] == objects;
    matched := 0;
    for i := 0 to |objects|
      invariant matched == KeyTotal(objects[..i])
    {
      assert objects[..i + 1][..i] == objects[..i];
      var matchedKeys := set k | k in objects[i].Keys && k in allKeys;
      assert objects[i] in objects;
      assert matchedKeys == objects[i].Keys;
      assert |objects[i].Keys| == |objects[i]|;
      matched := matched + |matchedKeys|;
    }
  }

  function RowsKey(c: Codec, h: Hashes, rows: seq<Row>): string
    requires |rows| >= 5
  {
    h.short(c.marshal(DroppedRows(rows)))
  }

  function Shortened(c: Codec, h: Hashes, rows: seq<Row>): string
    requires |rows| >= 5
  {
    c.marshal(Head(rows) + [Sentinel(RowsKey(c, h, rows), |DroppedRows(rows)|)] + Tail(rows))
  }

  method DropRows(c: Codec, h: Hashes, rows: seq<Row>, trimmed: string, store: InMemoryStore) returns (text: string)
    requires |rows| >= 5
    modifies store
    ensures text == Shortened(c, h, rows)
    ensures store.entries == old(store.entries)[RowsKey(c, h, rows) := trimmed]
  {
    var n := |rows|;
    var firstCount, lastCount := n * 3 / 10, n * 3 / 20;
    if firstCount < 1 {
      firstCount := 1;
    }
    if lastCount < 1 {
      lastCount := 1;
    }
    SomethingIsDropped(n);
    var droppedCount := n - (firstCount + lastCount);
    var droppedItems := rows[firstCount..firstCount + droppedCount];
    var droppedHash := h.short(c.marshal(droppedItems));
    var digits := LogSelection.Itoa(droppedCount);
    var marker := "<<ccr:" + droppedHash + " " + digits + "_rows_offloaded>>";
    var sentinel := Obj(map["_ccr_dropped" := Field("\"" + marker + "\"", Shown(marker))]);
    var crushedArray := rows[..firstCount] + [sentinel] + rows[firstCount + droppedCount..];
    var _ := store.Save(droppedHash, trimmed);
    text := c.marshal(crushedArray);
  }

  lemma MarkerNamesTheKey(c: Codec, h: Hashes, rows: seq<Row>, trimmed: string, text: string,
                          entries: map<string, string>)
    requires |rows| >= 5 && text == Shortened(c, h, rows)
    requires RowsKey(c, h, rows) in entries && entries[RowsKey(c, h, rows)] == trimmed
    ensures RowsGaveWay(c, h, rows, trimmed, text, entries, RowsKey(c, h, rows))
  {
    hide LogSelection.Decimal, LogSelection.Number;
    var i, j := FirstCount(|rows|), |rows| - LastCount(|rows|);
    var count := LogSelection.Decimal(j - i);
    LogSelection.DecimalReadsBack(j - i);
    assert GaveWay(c, h, rows, trimmed, text, entries, RowsKey(c, h, rows), i, j, count);
  }

  /** Head, dropped rows and tail are the whole array, and something is dropped. */
  lemma RowsArePartitioned(rows: seq<Row>)
    requires |rows| >= 5
    ensures Head(rows) + DroppedRows(rows) + Tail(rows) == rows
    ensures |Head(rows)| > 0 && |DroppedRows(rows)| > 0 && |Tail(rows)| > 0
  {
  }

  // ----- the other two savers ----------------------------------------------

  method OffloadDiff(diffLines: seq<string>, h: Hashes, store: InMemoryStore) returns (header: Option<string>)
    modifies store
    ensures |diffLines| < 50 ==> header == None && store.entries == old(store.entries)
    ensures |diffLines| >= 50 ==>
              var key := h.short(JoinLines(diffLines));
              && store.entries == old(store.entries)[key := JoinLines(diffLines)]
              && header == Some("[Original git diff (" + LogSelection.Decimal(|diffLines|)
                                + " lines) offloaded to <<ccr:" + key + ">>]")
  {
    if |diffLines| < 50 {
      return None;
    }
    var originalStr := JoinLines(diffLines);
    var droppedHash := store.Save(h.short(originalStr), originalStr);
    var digits := LogSelection.Itoa(|diffLines|);
    return Some("[Original git diff (" + digits + " lines) offloaded to <<ccr:" + droppedHash + ">>]");
  }

  /** The payload only ever shrinks, and the original is saved exactly when it does. */
  method OffloadLog(payload: string, traces: string -> string, logs: string -> string, h: Hashes, store: InMemoryStore)
      returns (out: string, key: Option<string>)
    modifies store
    ensures |out| <= |payload| && out in {payload, traces(payload), logs(payload)}
    ensures key == if |out| < |payload| then Some(h.long(payload)) else None
    ensures store.entries == if key.Some? then old(store.entries)[key.value := payload] else old(store.entries)
    ensures |out| == |payload| ==> out == payload && |traces(payload)| >= |payload| && |logs(payload)| >= |payload|
  {
    if |payload| == 0 {
      return payload, None;
    }
    out := traces(payload);
    if |out| >= |payload| {
      out := logs(payload);
      if |out| >= |payload| {
        return payload, None;
      }
    }
    var k := store.Save(h.long(payload), payload);
    key := Some(k);
  }

  // ----- any run of saves --------------------------------------------------

  /** A save, the expiry of one entry, or a reset. */
  datatype Op = SaveRows(text: string) | SaveDiff(text: string) | SaveLog(text: string) | Expire(key: string) | Forget

  predicate IsSave(op: Op)
  {
    op.SaveRows? || op.SaveDiff? || op.SaveLog?
  }

  /** What the three savers can save. */
  predicate Possible(c: Codec, op: Op)
  {
    match op
    case SaveRows(text) => c.parse(text).Some? && |c.parse(text).value| >= 5
    case SaveDiff(text) => HasPrefix(text, "diff --git ")
    case _ => true
  }

  function KeyFor(c: Codec, h: Hashes, op: Op): string
    requires Possible(c, op) && IsSave(op)
  {
    match op
    case SaveRows(text) => RowsKey(c, h, c.parse(text).value)
    case SaveDiff(text) => h.short(text)
    case SaveLog(text) => h.long(text)
  }

  ghost predicate AllPossible(c: Codec, ops: seq<Op>)
  {
    forall i :: 0 <= i < |ops| ==> Possible(c, ops[i])
  }

  function Run(c: Codec, h: Hashes, ops: seq<Op>): map<string, string>
    requires AllPossible(c, ops)
  {
    if |ops| == 0 then map[]
    else
      var op := ops[|ops| - 1];
      match op
      case Forget => map[]
      case Expire(key) => Run(c, h, ops[..|ops| - 1]) - {key}
      case _ => Run(c, h, ops[..|ops| - 1])[KeyFor(c, h, op) := op.text]
  }

  /** What the key of a save is the digest of. */
  function Hashed(c: Codec, op: Op): string
    requires Possible(c, op) && IsSave(op)
  {
    if op.SaveRows? then c.marshal(DroppedRows(c.parse(op.text).value)) else op.text
  }

  /** An array is marshalled as one, and these two as different texts if they differ. */
  predicate MarshalledApart(c: Codec, a: Op, b: Op)
    requires Possible(c, a) && Possible(c, b)
  {
    && (a.SaveRows? ==> |Hashed(c, a)| > 0 && Hashed(c, a)[0] == '[')
    && (b.SaveRows? ==> |Hashed(c, b)| > 0 && Hashed(c, b)[0] == '[')
    && (a.SaveRows? && b.SaveRows? && Hashed(c, a) == Hashed(c, b) ==>
          DroppedRows(c.parse(a.text).value) == DroppedRows(c.parse(b.text).value))
  }

  /** The digests do not collide on what these two saves hash. */
  predicate Apart(c: Codec, h: Hashes, a: Op, b: Op)
    requires Possible(c, a) && Possible(c, b)
  {
    IsSave(a) && IsSave(b) ==>
      && MarshalledApart(c, a, b)
      && (a.SaveLog? && b.SaveLog? && h.long(a.text) == h.long(b.text) ==> a.text == b.text)
      && (!a.SaveLog? && !b.SaveLog? && h.short(Hashed(c, a)) == h.short(Hashed(c, b)) ==> Hashed(c, a) == Hashed(c, b))
  }

  ghost predicate NoCollisions(c: Codec, h: Hashes, ops: seq<Op>)
    requires AllPossible(c, ops)
  {
    forall i, j :: 0 <= i < |ops| && 0 <= j < |ops| ==> Apart(c, h, ops[i], ops[j])
  }

  /** Digests of the right widths that tell two saves apart exist for any two saves. */
  lemma HashesExist(c: Codec, a: Op, b: Op) returns (h: Hashes)
    requires Possible(c, a) && Possible(c, b) && IsSave(a) && IsSave(b) && MarshalledApart(c, a, b)
    ensures Widths(h) && NoCollisions(c, h, [a, b])
  {
    var x, y := Hashed(c, a), a.text;
    h := Hashes(s => seq(12, _ => if s == x then '0' else '1'), s => seq(32, _ => if s == y then '0' else '1'));
    hide DroppedRows;
    assert h.short(Hashed(c, a))[0] == '0' && h.long(a.text)[0] == '0';
    assert Hashed(c, b) != x ==> h.short(Hashed(c, b))[0] == '1';
    assert b.text != y ==> h.long(b.text)[0] == '1';
    assert Apart(c, h, a, a) && Apart(c, h, a, b) && Apart(c, h, b, a) && Apart(c, h, b, b);
  }

  /** Two saves share a key exactly when they save the same diff, the same log payload,
      or arrays that drop the same rows. */
  lemma {:induction false} SameKeyIff(c: Codec, h: Hashes, a: Op, b: Op)
    requires Widths(h) && Possible(c, a) && Possible(c, b) && IsSave(a) && IsSave(b) && Apart(c, h, a, b)
    ensures KeyFor(c, h, a) == KeyFor(c, h, b) <==>
              match a
              case SaveRows(t) => b.SaveRows? && DroppedRows(c.parse(t).value) == DroppedRows(c.parse(b.text).value)
              case SaveDiff(t) => b == a
              case SaveLog(t) => b == a
  {
    hide DroppedRows;
    assert |h.short(Hashed(c, a))| == |h.short(Hashed(c, b))| == 12 && |h.long(a.text)| == |h.long(b.text)| == 32;
    if a.SaveDiff? {
      StartsWithD(a.text);
    }
    if b.SaveDiff? {
      StartsWithD(b.text);
    }
  }

  lemma StartsWithD(s: string)
    requires HasPrefix(s, "diff --git ")
    ensures s[0] == 'd'
  {
    assert s[0] == s[..11][0] == "diff --git "[0];
  }

  /** Every entry was put there by some save of the run, under that save's key. */
  lemma {:induction false} EntryHasASave(c: Codec, h: Hashes, ops: seq<Op>, key: string) returns (j: nat)
    requires AllPossible(c, ops) && key in Run(c, h, ops)
    ensures j < |ops| && IsSave(ops[j]) && KeyFor(c, h, ops[j]) == key && ops[j].text == Run(c, h, ops)[key]
  {
    hide KeyFor;
    var init, last := ops[..|ops| - 1], ops[|ops| - 1];
    if IsSave(last) && KeyFor(c, h, last) == key {
      j := |ops| - 1;
    } else {
      j := EntryHasASave(c, h, init, key);
    }
  }

  /** Over any run, a key given out for a diff or a log payload finds exactly that
      original or nothing; a key given out for dropped rows finds an array that drops
      the same rows, or nothing. */
  lemma {:induction false} LookupFindsTheOriginal(c: Codec, h: Hashes, ops: seq<Op>, i: nat)
    requires Widths(h) && AllPossible(c, ops) && NoCollisions(c, h, ops) && i < |ops| && IsSave(ops[i])
    requires KeyFor(c, h, ops[i]) in Run(c, h, ops)
    ensures var found := Run(c, h, ops)[KeyFor(c, h, ops[i])];
            match ops[i]
            case SaveRows(text) =>
              && c.parse(found).Some? && |c.parse(found).value| >= 5
              && DroppedRows(c.parse(found).value) == DroppedRows(c.parse(text).value)
            case SaveDiff(text) => found == text
            case SaveLog(text) => found == text
  {
    hide KeyFor, DroppedRows, Run;
    var j := EntryHasASave(c, h, ops, KeyFor(c, h, ops[i]));
    SameKeyIff(c, h, ops[i], ops[j]);
  }

  /** The last array in the list that drops the same rows. */
  function LastSharing(c: Codec, later: seq<Op>, text: string): Option<string>
    requires AllPossible(c, later) && Possible(c, SaveRows(text))
  {
    if |later| == 0 then None
    else
      var last := later[|later| - 1];
      if last.SaveRows? && DroppedRows(c.parse(last.text).value) == DroppedRows(c.parse(text).value)
        then Some(last.text)
      else LastSharing(c, later[..|later| - 1], text)
  }

  /** A row-drop key finds the very array it was given out for exactly when the last
      later save that drops the same rows, if there is one, saved that array again. */
  lemma {:induction false} SameArrayIff(c: Codec, h: Hashes, before: seq<Op>, text: string, later: seq<Op>)
    requires Widths(h) && AllPossible(c, before) && Possible(c, SaveRows(text)) && AllPossible(c, later)
    requires forall k :: 0 <= k < |later| ==> IsSave(later[k]) && Apart(c, h, SaveRows(text), later[k])
    ensures AllPossible(c, before + [SaveRows(text)] + later)
    ensures var found := Run(c, h, before + [SaveRows(text)] + later);
            var key := KeyFor(c, h, SaveRows(text));
            key in found && (found[key] == text <==> LastSharing(c, later, text) in {None, Some(text)})
  {
    ReplacedBy(c, h, before, text, later);
  }

  lemma RunPush(c: Codec, h: Hashes, ops: seq<Op>, last: Op)
    requires AllPossible(c, ops) && Possible(c, last) && IsSave(last)
    ensures AllPossible(c, ops + [last]) && Run(c, h, ops + [last]) == Run(c, h, ops)[KeyFor(c, h, last) := last.text]
  {
    hide Possible, KeyFor;
    assert (ops + [last])[..|ops|] == ops;
  }

  lemma {:induction false} ReplacedBy(c: Codec, h: Hashes, before: seq<Op>, text: string, later: seq<Op>)
    requires Widths(h) && AllPossible(c, before) && Possible(c, SaveRows(text)) && AllPossible(c, later)
    requires forall k :: 0 <= k < |later| ==> IsSave(later[k]) && Apart(c, h, SaveRows(text), later[k])
    ensures AllPossible(c, before + [SaveRows(text)] + later)
    ensures var found := Run(c, h, before + [SaveRows(text)] + later);
            var key := KeyFor(c, h, SaveRows(text));
            var last := LastSharing(c, later, text);
            key in found && found[key] == if last.Some? then last.value else text
    decreases |later|
  {
    var ops := before + [SaveRows(text)] + later;
    if |later| == 0 {
      assert ops == before + [SaveRows(text)];
      RunPush(c, h, before, SaveRows(text));
      hide *;
    } else {
      var init, last := later[..|later| - 1], later[|later| - 1];
      var known := before + [SaveRows(text)] + init;
      assert ops == known + [last];
      ReplacedBy(c, h, before, text, init);
      RunPush(c, h, known, last);
      SharedLast(c, h, text, later);
      hide *;
    }
  }

  /** The last save replaces the entry exactly when it drops the same rows. */
  lemma SharedLast(c: Codec, h: Hashes, text: string, later: seq<Op>)
    requires |later| > 0 && Widths(h) && AllPossible(c, later) && Possible(c, SaveRows(text))
    requires var last := later[|later| - 1]; IsSave(last) && Apart(c, h, SaveRows(text), last)
    ensures var last := later[|later| - 1];
            && (KeyFor(c, h, last) == KeyFor(c, h, SaveRows(text)) ==> LastSharing(c, later, text) == Some(last.text))
            && (KeyFor(c, h, last) != KeyFor(c, h, SaveRows(text)) ==>
                  LastSharing(c, later, text) == LastSharing(c, later[..|later| - 1], text))
  {
    hide KeyFor, DroppedRows;
    SameKeyIff(c, h, SaveRows(text), later[|later| - 1]);
  }

  // ----- two arrays under one key ------------------------------------------

  /** An object with the one field "k", and its JSON text. */
  function OneField(v: string): Row
  {
    Obj(map["k" := Field("\"" + v + "\"", Shown(v))])
  }

  function OneFieldText(v: string): string
  {
    "{\"k\":\"" + v + "\"}"
  }

  function FiveRows(first: string, v: string): (rows: seq<Row>)
    ensures |rows| == 5 && forall r :: r in rows ==> r.Obj?
  {
    [OneField(first), OneField(v), OneField(v), OneField(v), OneField(v)]
  }

  function FiveRowsText(first: string, v: string): string
  {
    var more := "," + OneFieldText(v);
    "[" + OneFieldText(first) + more + more + more + more + "]"
  }

  predicate Letters(v: string)
  {
    |v| == 200 && forall i :: 0 <= i < |v| ==> 'a' <= v[i] <= 'z'
  }

  /** A column of 200-letter cells is written without quotes, 201 bytes a row. */
  lemma {:induction false} ColumnLength(rows: seq<seq<string>>)
    requires forall row :: row in rows ==> |row| == 1 && Letters(row[0])
    ensures |Render(rows)| == 201 * |rows|
  {
    if |rows| > 0 {
      assert rows[0] in rows && forall row :: row in rows[1..] ==> row in rows;
      ColumnLength(rows[1..]);
      var v := rows[0][0];
      assert !NeedsQuotes(v);
      assert RenderRow(rows[0]) == v;
    }
  }

  lemma {:induction false} OneKeyEach(objects: seq<Object>)
    requires forall o :: o in objects ==> o.Keys == {"k"}
    ensures KeyTotal(objects) == |objects|
  {
    if |objects| > 0 {
      var init, last := objects[..|objects| - 1], objects[|objects| - 1];
      assert last in objects && forall o :: o in init ==> o in objects;
      OneKeyEach(init);
      assert |last| == |last.Keys| == 1;
    }
  }

  lemma FiveObjects(first: string, v: string)
    ensures var objects := Objects(FiveRows(first, v));
            && |objects| == 5
            && forall o :: o in objects ==> o.Keys == {"k"} && (o["k"] == Shown(first) || o["k"] == Shown(v))
  {
    var rows := FiveRows(first, v);
    forall i | 0 <= i < 5
      ensures Objects(rows)[i].Keys == {"k"}
              && (Objects(rows)[i]["k"] == Shown(first) || Objects(rows)[i]["k"] == Shown(v))
    {
      assert rows[i] in rows && Objects(rows)[i] == AsObject(rows[i].fields);
    }
  }

  lemma OneKeyInAll(objects: seq<Object>)
    requires |objects| > 0 && forall o :: o in objects ==> o.Keys == {"k"}
    ensures AllKeys(objects) == {"k"}
  {
    assert objects[0] in objects;
  }

  /** The one-column table of five 200-letter cells takes 1007 bytes. */
  lemma FiveRowsCsv(first: string, v: string)
    requires Letters(first) && Letters(v)
    ensures AllKeys(Objects(FiveRows(first, v))) == {"k"} && KeyTotal(Objects(FiveRows(first, v))) == 5
    ensures |Render(Table(Objects(FiveRows(first, v)), ["k"]))| == 1007
  {
    hide *;
    var objects := Objects(FiveRows(first, v));
    FiveObjects(first, v);
    OneKeyEach(objects);
    OneKeyInAll(objects);
    OneColumnTable(objects);
  }

  lemma OneColumnTable(objects: seq<Object>)
    requires forall o :: o in objects ==> o.Keys == {"k"} && o["k"].Shown? && Letters(o["k"].text)
    ensures |Render(Table(objects, ["k"]))| == 2 + 201 * |objects|
  {
    var t := Table(objects, ["k"]);
    OneColumnRows(objects, t);
    hide Table, Letters;
    ColumnLength(t[1..]);
    assert RenderRow(t[0]) == "k";
  }

  lemma OneColumnRows(objects: seq<Object>, t: seq<seq<string>>)
    requires forall o :: o in objects ==> o.Keys == {"k"} && o["k"].Shown? && Letters(o["k"].text)
    requires t == Table(objects, ["k"])
    ensures |t| == 1 + |objects| && t[0] == ["k"] && forall row :: row in t[1..] ==> |row| == 1 && Letters(row[0])
  {
    hide Letters;
    forall row | row in t[1..]
      ensures |row| == 1 && Letters(row[0])
    {
      var k :| 0 <= k < |t[1..]| && t[1..][k] == row;
      assert row == Csv.Row(objects[k], ["k"]) && objects[k] in objects;
    }
  }

  /** Five rows of 200 letters are crushed, and not as CSV. */
  lemma FiveRowsAreDropped(c: Codec, first: string, v: string)
    requires Letters(first) && Letters(v)
    requires c.parse(FiveRowsText(first, v)) == Some(FiveRows(first, v))
    ensures var text, rows := FiveRowsText(first, v), FiveRows(first, v);
            && Crushable(c, text) && StrictlySorted(["k"]) && Elements(["k"], AllKeys(Objects(rows)))
            && !CsvPays(text, Render(Table(Objects(rows), ["k"])))
            && DroppedRows(rows) == [OneField(v), OneField(v), OneField(v)]
  {
    var text, rows := FiveRowsText(first, v), FiveRows(first, v);
    FiveRowsCsv(first, v);
    assert |text| == 1046 && text[0] == '[' && text[1045] == ']';
    assert forall r :: r in rows ==> r.Obj?;
    assert FirstCount(5) == 1 && LastCount(5) == 1;
  }

  /** Two arrays the dropper shortens, with different heads and the same dropped rows:
      whatever the digests, the key given out for the first finds the second once both
      are saved. */
  lemma TwoArraysOneKey(h: Hashes, marshal: seq<Row> -> string) returns (c: Codec, s: string, t: string)
    ensures c.marshal == marshal && s != t && Crushable(c, s) && Crushable(c, t)
    ensures forall x :: x in {s, t} ==>
              var rows := c.parse(x).value;
              && StrictlySorted(["k"]) && Elements(["k"], AllKeys(Objects(rows)))
              && !CsvPays(x, Render(Table(Objects(rows), ["k"])))
    ensures DroppedRows(c.parse(s).value) == DroppedRows(c.parse(t).value)
    ensures AllPossible(c, [SaveRows(s), SaveRows(t)])
    ensures var found := Run(c, h, [SaveRows(s), SaveRows(t)]);
            KeyFor(c, h, SaveRows(s)) in found && found[KeyFor(c, h, SaveRows(s))] == t
  {
    var a: string, b: string := seq(200, _ => 'a'), seq(200, _ => 'b');
    s, t := FiveRowsText(a, b), FiveRowsText(b, b);
    assert s[7] == 'a' && t[7] == 'b';
    var one, two, x, y := FiveRows(a, b), FiveRows(b, b), s, t;
    c := Codec(z => z, z => if z == x then Some(one) else if z == y then Some(two) else None, marshal);
    hide FiveRowsText, FiveRows, Crushable, CsvPays, Render, Table, DroppedRows,
         StrictlySorted, Elements, Objects, AllKeys;
    FiveRowsAreDropped(c, a, b);
    FiveRowsAreDropped(c, b, b);
    SavedTwice(c, h, s, t);
  }

  lemma SavedTwice(c: Codec, h: Hashes, s: string, t: string)
    requires Crushable(c, s) && Crushable(c, t) && DroppedRows(c.parse(s).value) == DroppedRows(c.parse(t).value)
    ensures AllPossible(c, [SaveRows(s), SaveRows(t)])
    ensures var found := Run(c, h, [SaveRows(s), SaveRows(t)]);
            KeyFor(c, h, SaveRows(s)) in found && found[KeyFor(c, h, SaveRows(s))] == t
  {
    hide DroppedRows;
    var ops := [SaveRows(s), SaveRows(t)];
    assert ops[..1] == [SaveRows(s)] && ops[1] == SaveRows(t);
  }

  // ----- answering a retrieve call -----------------------------------------

  /** A tool call; `cacheKey` is None when its arguments do not parse. */
  datatype ToolCall = ToolCall(name: string, cacheKey: Option<string>, id: string)

  datatype Content =
    | AsReceived(json: string)
    | Original(text: string, cacheKey: string, toolCallId: string)
    | NotFound(cacheKey: string)

  datatype Choice = Choice(role: string, content: Content, toolCalls: seq<ToolCall>, finishReason: string)

  const RETRIEVE := "synapse_retrieve"

  predicate IsRetrieve(tc: ToolCall)
  {
    tc.name == RETRIEVE && tc.cacheKey.Some? && tc.cacheKey.value != ""
  }

  /** The position of the last retrieve call that names a key. */
  ghost predicate IsLastRetrieve(calls: seq<ToolCall>, k: nat)
  {
    k < |calls| && IsRetrieve(calls[k]) && forall j :: k < j < |calls| ==> !IsRetrieve(calls[j])
  }

  /** A choice without such a call is untouched; otherwise its last one is answered
      from the store and every tool call is gone. */
  ghost predicate Answered(was: Choice, now: Choice, entries: map<string, string>)
  {
    && ((forall tc :: tc in was.toolCalls ==> !IsRetrieve(tc)) ==> now == was)
    && forall k: nat :: IsLastRetrieve(was.toolCalls, k) ==>
         var tc := was.toolCalls[k];
         var key := tc.cacheKey.value;
         now == Choice("tool", if key in entries then Original(entries[key], key, tc.id) else NotFound(key), [], "stop")
  }

  /** A retrieve call with the key that a row-drop marker names is answered with the whole
      array the rows were dropped from. */
  lemma MarkerLeadsBack(c: Codec, h: Hashes, rows: seq<Row>, trimmed: string, text: string,
                        entries: map<string, string>, key: string, was: Choice, now: Choice, k: nat)
    requires Widths(h) && RowsGaveWay(c, h, rows, trimmed, text, entries, key)
    requires k < |was.toolCalls|
    requires was.toolCalls[k].name == "synapse_retrieve" && was.toolCalls[k].cacheKey == Some(key)
    requires forall j :: k < j < |was.toolCalls| ==> !IsRetrieve(was.toolCalls[j])
    requires Answered(was, now, entries)
    ensures now == Choice("tool", Original(trimmed, key, was.toolCalls[k].id), [], "stop")
  {
    hide LogSelection.Number;
    var i: nat, j: nat, count: string :| GaveWay(c, h, rows, trimmed, text, entries, key, i, j, count);
    assert |key| == 12;
    assert IsLastRetrieve(was.toolCalls, k);
  }

  function Reply(tc: ToolCall, entries: map<string, string>): Choice
    requires IsRetrieve(tc)
  {
    var key := tc.cacheKey.value;
    Choice("tool", if key in entries then Original(entries[key], key, tc.id) else NotFound(key), [], "stop")
  }

  /** The choice after its first n tool calls were looked at. */
  function AfterCalls(was: Choice, n: nat, entries: map<string, string>): Choice
    requires n <= |was.toolCalls|
  {
    if n == 0 then was
    else if IsRetrieve(was.toolCalls[n - 1]) then Reply(was.toolCalls[n - 1], entries)
    else AfterCalls(was, n - 1, entries)
  }

  lemma {:induction false} LaterCallsWin(was: Choice, n: nat, entries: map<string, string>)
    requires n <= |was.toolCalls| && forall j :: n <= j < |was.toolCalls| ==> !IsRetrieve(was.toolCalls[j])
    ensures Answered(was, AfterCalls(was, n, entries), entries)
  {
    if n == 0 {
    } else if !IsRetrieve(was.toolCalls[n - 1]) {
      LaterCallsWin(was, n - 1, entries);
    } else {
      assert was.toolCalls[n - 1] in was.toolCalls;
      forall k: nat | IsLastRetrieve(was.toolCalls, k)
        ensures k == n - 1
      {
      }
    }
  }

  /** Rewrites the choices of a response in place. */
  method AnswerRetrieveCalls(choices: array<Choice>, store: InMemoryStore)
    modifies choices
    ensures forall i :: 0 <= i < choices.Length ==> Answered(old(choices[i]), choices[i], store.entries)
  {
    hide Answered;
    for i := 0 to choices.Length
      invariant forall j :: 0 <= j < i ==> Answered(old(choices[j]), choices[j], store.entries)
      invariant forall j :: i <= j < choices.Length ==> choices[j] == old(choices[j])
    {
      var toolCalls := choices[i].toolCalls;
      for k := 0 to |toolCalls|
        invariant choices[i] == AfterCalls(old(choices[i]), k, store.entries)
        invariant forall j :: 0 <= j < i ==> Answered(old(choices[j]), choices[j], store.entries)
        invariant forall j :: i < j < choices.Length ==> choices[j] == old(choices[j])
      {
        var tc := toolCalls[k];
        if tc.name != RETRIEVE {
          continue;
        }
        if tc.cacheKey.None? {
          continue;
        }
        if tc.cacheKey.value == "" {
          continue;
        }
        var original := store.Lookup(tc.cacheKey.value);
        if original.None? {
          choices[i] := Choice("tool", NotFound(tc.cacheKey.value), [], "stop");
          continue;
        }
        choices[i] := Choice("tool", Original(original.value, tc.cacheKey.value, tc.id), [], "stop");
      }
      LaterCallsWin(old(choices[i]), |toolCalls|, store.entries);
    }
  }
}
