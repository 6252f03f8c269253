// The protected-zone scanner: a left-to-right walk over CDATA sections, four HTML
// elements and fenced code blocks.
module TagZones {
  import opened Text

  /** How an opening tag goes on after its literal. */
  datatype Kind = Cdata | Html | Fence

  datatype TagPair = TagPair(openLit: string, closeLit: string, kind: Kind)

  const PAIRS := [
    TagPair("<![CDATA[", "]]>", Cdata),
    TagPair("<script", "</script>", Html),
    TagPair("<style", "</style>", Html),
    TagPair("<pre", "</pre>", Html),
    TagPair("<code", "</code>", Html),
    TagPair("```", "```", Fence)
  ]

  /** The white space of the expressions, which includes the form feed. */
  predicate IsSpace(c: char)
  {
    c == '\t' || c == '\n' || c == '\U{000C}' || c == '\r' || c == ' '
  }

  /** The opening expression of the pair matches at k. */
  predicate Opens(payload: string, p: TagPair, k: nat)
  {
    && OccursAt(payload, p.openLit, k)
    && (p.kind.Html? ==> k + |p.openLit| < |payload|
                         && (IsSpace(payload[k + |p.openLit|]) || payload[k + |p.openLit|] == '>'))
  }

  ghost predicate OpeningAt(payload: string, k: nat)
  {
    exists i :: 0 <= i < |PAIRS| && Opens(payload, PAIRS[i], k)
  }

  predicate Apart(a: string, b: string)
  {
    exists x :: 0 <= x < |a| && x < |b| && a[x] != b[x]
  }

  /** The first three characters tell the opening literals apart. */
  lemma Literals()
    ensures forall i :: 0 <= i < |PAIRS| ==> |PAIRS[i].openLit| >= 3 && |PAIRS[i].closeLit| >= 3
    ensures forall i, j :: 0 <= i < |PAIRS| && 0 <= j < |PAIRS| && i != j ==> Apart(PAIRS[i].openLit, PAIRS[j].openLit)
  {
    forall i, j | 0 <= i < |PAIRS| && 0 <= j < |PAIRS| && i != j
      ensures Apart(PAIRS[i].openLit, PAIRS[j].openLit)
    {
      var a, b := PAIRS[i].openLit, PAIRS[j].openLit;
      assert a[0] != b[0] || a[1] != b[1] || a[2] != b[2];
    }
  }

  /** At most one pair's literal stands at a position. */
  lemma OneLiteral(payload: string, i: nat, j: nat, k: nat)
    requires i < |PAIRS| && j < |PAIRS|
    requires OccursAt(payload, PAIRS[i].openLit, k) && OccursAt(payload, PAIRS[j].openLit, k)
    ensures i == j
  {
    hide OccursAt;
    Literals();
    if i != j {
      var a, b := PAIRS[i].openLit, PAIRS[j].openLit;
      var x :| 0 <= x < |a| && x < |b| && a[x] != b[x];
      CharAt(payload, PAIRS[i].openLit, k, x);
      CharAt(payload, PAIRS[j].openLit, k, x);
    }
  }

  lemma CharAt(s: string, lit: string, k: nat, x: nat)
    requires OccursAt(s, lit, k) && x < |lit|
    ensures k + x < |s| && s[k + x] == lit[x]
  {
    assert s[k..k + |lit|][x] == s[k + x];
  }

  // ----- the end of an opening tag -----------------------------------------

  function HtmlEnd(payload: string, i: nat): (r: nat)
    requires i <= |payload|
    ensures i <= r <= |payload|
    decreases |payload| - i
  {
    if i == |payload| then i
    else if payload[i] == '>' then i + 1
    else if payload[i] == ' ' || payload[i] == '\t' || payload[i] == '\n' || payload[i] == '\r' then i
    else HtmlEnd(payload, i + 1)
  }

  predicate IsLanguage(c: char)
  {
    'a' <= c <= 'z' || 'A' <= c <= 'Z' || '0' <= c <= '9' || c == '_' || c == '-'
  }

  function FenceEnd(payload: string, i: nat): (r: nat)
    requires i <= |payload|
    ensures i <= r <= |payload|
    decreases |payload| - i
  {
    if i < |payload| && IsLanguage(payload[i]) then FenceEnd(payload, i + 1) else i
  }

  /** Just past the opening tag of the pair at k. */
  function TagEnd(payload: string, p: TagPair, k: nat): (r: nat)
    requires OccursAt(payload, p.openLit, k)
    ensures k + |p.openLit| <= r <= |payload|
  {
    match p.kind
    case Cdata => k + |p.openLit|
    case Html => HtmlEnd(payload, k + |p.openLit|)
    case Fence => FenceEnd(payload, k + |p.openLit|)
  }

  /** The characters that end an element's opening tag. */
  predicate Stops(c: char)
  {
    c == '>' || c == ' ' || c == '\t' || c == '\n' || c == '\r'
  }

  /** Where the opening tag at k ends, by its characters alone: a section's is the literal;
      an element's runs to the first `>`, that included, or the first blank or the end; a
      fence's takes all language characters. */
  predicate TagEndsAt(payload: string, p: TagPair, k: nat, e: nat)
  {
    var from := k + |p.openLit|;
    && from <= e <= |payload|
    && match p.kind
       case Cdata => e == from
       case Html =>
         if e > from && payload[e - 1] == '>' then forall j :: from <= j < e - 1 ==> !Stops(payload[j])
         else (forall j :: from <= j < e ==> !Stops(payload[j]))
              && (e == |payload| || (Stops(payload[e]) && payload[e] != '>'))
       case Fence =>
         (forall j :: from <= j < e ==> IsLanguage(payload[j])) && (e == |payload| || !IsLanguage(payload[e]))
  }

  lemma {:induction false} HtmlEndStops(payload: string, i: nat)
    requires i <= |payload|
    ensures var e := HtmlEnd(payload, i);
            if e > i && payload[e - 1] == '>' then forall j :: i <= j < e - 1 ==> !Stops(payload[j])
            else (forall j :: i <= j < e ==> !Stops(payload[j]))
                 && (e == |payload| || (Stops(payload[e]) && payload[e] != '>'))
    decreases |payload| - i
  {
    if i < |payload| && !Stops(payload[i]) {
      HtmlEndStops(payload, i + 1);
    }
  }

  lemma {:induction false} FenceEndStops(payload: string, i: nat)
    requires i <= |payload|
    ensures var e := FenceEnd(payload, i);
            (forall j :: i <= j < e ==> IsLanguage(payload[j])) && (e == |payload| || !IsLanguage(payload[e]))
    decreases |payload| - i
  {
    if i < |payload| && IsLanguage(payload[i]) {
      FenceEndStops(payload, i + 1);
    }
  }

  /** The opening tag ends there, and nowhere else. */
  lemma TagEndByPlace(payload: string, p: TagPair, k: nat, e: nat)
    requires OccursAt(payload, p.openLit, k)
    ensures e == TagEnd(payload, p, k) <==> TagEndsAt(payload, p, k, e)
  {
    var from := k + |p.openLit|;
    HtmlEndStops(payload, from);
    FenceEndStops(payload, from);
    hide HtmlEnd, FenceEnd;
    var end := TagEnd(payload, p, k);
    assert TagEndsAt(payload, p, k, end);
    if TagEndsAt(payload, p, k, e) {
      TagEndsNotAfter(payload, p, k, e, end);
      TagEndsNotAfter(payload, p, k, end, e);
    }
  }

  lemma TagEndsNotAfter(payload: string, p: TagPair, k: nat, e: nat, d: nat)
    requires TagEndsAt(payload, p, k, e) && TagEndsAt(payload, p, k, d)
    ensures d <= e
  {
  }

  method OpenTagEnd(payload: string, p: TagPair, idx: nat) returns (end: nat)
    requires OccursAt(payload, p.openLit, idx)
    ensures end == TagEnd(payload, p, idx)
    ensures TagEndsAt(payload, p, idx, end)
  {
    TagEndByPlace(payload, p, idx, TagEnd(payload, p, idx));
    hide TagEndsAt;
    if p.kind.Cdata? {
      return idx + |p.openLit|;
    }
    var i := idx + |p.openLit|;
    if !p.kind.Fence? {
      while i < |payload|
        invariant i <= |payload| && HtmlEnd(payload, idx + |p.openLit|) == HtmlEnd(payload, i)
      {
        var c := payload[i];
        if c == '>' {
          return i + 1;
        }
        if c == ' ' || c == '\t' || c == '\n' || c == '\r' {
          return i;
        }
        i := i + 1;
      }
      return |payload|;
    }
    while i < |payload|
      invariant i <= |payload| && FenceEnd(payload, idx + |p.openLit|) == FenceEnd(payload, i)
    {
      if !IsLanguage(payload[i]) {
        return i;
      }
      i := i + 1;
    }
    return |payload|;
  }

  // ----- the walk ----------------------------------------------------------

  /** One opening tag the walk came upon: its pair, where it starts and ends, and where
      its closing literal starts, if there is one. */
  datatype Scanned = Scanned(pair: nat, start: nat, openEnd: nat, close: Option<nat>)

  ghost function Resume(e: Scanned): nat
    requires e.pair < |PAIRS|
  {
    match e.close
    case None => e.openEnd
    case Some(c) => c + |PAIRS[e.pair].closeLit|
  }

  ghost predicate FirstOpening(payload: string, from: nat, k: nat)
  {
    from <= k && OpeningAt(payload, k) && forall j :: from <= j < k ==> !OpeningAt(payload, j)
  }

  /** The closing literal's first place after the opening tag, or none. */
  ghost predicate FirstClose(payload: string, p: TagPair, from: nat, close: Option<nat>)
  {
    match close
    case None => forall j :: from <= j ==> !OccursAt(payload, p.closeLit, j)
    case Some(c) =>
      && from <= c && OccursAt(payload, p.closeLit, c)
      && forall j :: from <= j < c ==> !OccursAt(payload, p.closeLit, j)
  }

  /** The entry describes the first opening tag at or after `from`. */
  ghost predicate Describes(payload: string, from: nat, e: Scanned)
  {
    && e.pair < |PAIRS| && FirstOpening(payload, from, e.start)
    && Opens(payload, PAIRS[e.pair], e.start)
    && e.openEnd == TagEnd(payload, PAIRS[e.pair], e.start)
    && FirstClose(payload, PAIRS[e.pair], e.openEnd, e.close)
  }

  ghost function ResumeAfter(scan: seq<Scanned>): nat
    requires forall e :: e in scan ==> e.pair < |PAIRS|
  {
    if |scan| == 0 then 0 else assert scan[|scan| - 1] in scan; Resume(scan[|scan| - 1])
  }

  /** Each entry describes the first opening tag after the one before it was done with. */
  ghost predicate IsScan(payload: string, scan: seq<Scanned>)
  {
    && (forall e :: e in scan ==> e.pair < |PAIRS|)
    && forall k :: 0 <= k < |scan| ==> Describes(payload, ResumeAfter(scan[..k]), scan[k])
  }

  ghost predicate IsWholeScan(payload: string, scan: seq<Scanned>)
  {
    IsScan(payload, scan) && forall k: nat :: ResumeAfter(scan) <= k ==> !OpeningAt(payload, k)
  }

  datatype TagZone = TagZone(openTag: string, closeTag: string, start: nat, end: nat)

  ghost function ZoneOf(payload: string, e: Scanned): TagZone
    requires e.pair < |PAIRS| && e.close.Some? && e.start <= e.openEnd <= |payload|
  {
    TagZone(payload[e.start..e.openEnd], PAIRS[e.pair].closeLit, e.start, Resume(e))
  }

  ghost predicate Bounded(payload: string, scan: seq<Scanned>)
  {
    forall e :: e in scan ==> e.pair < |PAIRS| && e.start <= e.openEnd <= |payload|
  }

  /** The zones are the closed entries. */
  ghost function Zones(payload: string, scan: seq<Scanned>): seq<TagZone>
    requires Bounded(payload, scan)
  {
    if |scan| == 0 then []
    else
      var e := scan[|scan| - 1];
      assert e in scan && forall x :: x in scan[..|scan| - 1] ==> x in scan;
      Zones(payload, scan[..|scan| - 1]) + if e.close.Some? then [ZoneOf(payload, e)] else []
  }

  /** The first place at or after `from` where the pair's expression matches. */
  method FindIndex(payload: string, p: TagPair, from: nat) returns (loc: Option<nat>)
    requires |p.openLit| > 0
    ensures loc.Some? ==> from <= loc.value && Opens(payload, p, loc.value)
    ensures forall k :: from <= k && (loc.None? || k < loc.value) ==> !Opens(payload, p, k)
  {
    var k := from;
    while k < |payload|
      invariant from <= k && forall j :: from <= j < k ==> !Opens(payload, p, j)
    {
      if Opens(payload, p, k) {
        return Some(k);
      }
      k := k + 1;
    }
    return None;
  }

  method FindNextOpenTag(payload: string, from: nat) returns (best: Option<nat>, literal: string, ghost pair: nat)
    ensures best.None? ==> forall k :: from <= k ==> !OpeningAt(payload, k)
    ensures best.Some? ==>
              && FirstOpening(payload, from, best.value)
              && pair < |PAIRS| && Opens(payload, PAIRS[pair], best.value)
              && literal == payload[best.value..TagEnd(payload, PAIRS[pair], best.value)]
  {
    hide Opens, TagEnd;
    Literals();
    best, literal, pair := None, "", 0;
    for i := 0 to |PAIRS|
      invariant best.None? ==> forall j, k :: 0 <= j < i && from <= k ==> !Opens(payload, PAIRS[j], k)
      invariant best.Some? ==>
                  && from <= best.value && pair < |PAIRS| && Opens(payload, PAIRS[pair], best.value)
                  && OccursAt(payload, PAIRS[pair].openLit, best.value)
                  && literal == payload[best.value..TagEnd(payload, PAIRS[pair], best.value)]
                  && forall j, k :: 0 <= j < i && from <= k < best.value ==> !Opens(payload, PAIRS[j], k)
    {
      var p := PAIRS[i];
      var loc := FindIndex(payload, p, from);
      if loc.None? {
        continue;
      }
      OpensOccurs(payload, p, loc.value);
      var end := OpenTagEnd(payload, p, loc.value);
      if best.None? || loc.value < best.value {
        best, literal, pair := loc, payload[loc.value..end], i;
      }
    }
  }

  lemma OpensOccurs(payload: string, p: TagPair, k: nat)
    requires Opens(payload, p, k)
    ensures OccursAt(payload, p.openLit, k)
  {
  }

  /** The second look at the literals finds the pair that matched: never none, never
      another one. */
  method FindOpenPairIndex(payload: string, idx: nat, ghost matched: nat) returns (i: int)
    requires matched < |PAIRS| && Opens(payload, PAIRS[matched], idx)
    ensures i == matched
  {
    for j := 0 to |PAIRS|
      invariant j <= matched
    {
      var at := BytesIndex(payload[idx..], PAIRS[j].openLit);
      IndexOfIsLeast(payload[idx..], PAIRS[j].openLit);
      if at == 0 {
        assert payload[idx..][..|PAIRS[j].openLit|] == payload[idx..idx + |PAIRS[j].openLit|];
        OneLiteral(payload, j, matched, idx);
        return j;
      }
      assert payload[idx..][..|PAIRS[matched].openLit|] == payload[idx..idx + |PAIRS[matched].openLit|];
    }
    return -1;
  }

  lemma CloseFound(payload: string, p: TagPair, from: nat, r: int)
    requires from <= |payload| && r == IndexOf(payload[from..], p.closeLit)
    ensures FirstClose(payload, p, from, if r < 0 then None else Some(from + r))
    ensures r >= 0 ==> from + r + |p.closeLit| <= |payload|
  {
    var tail := payload[from..];
    IndexOfIsLeast(tail, p.closeLit);
    forall j | from <= j
      ensures OccursAt(payload, p.closeLit, j) <==> OccursAt(tail, p.closeLit, j - from)
    {
      if j <= |payload| - |p.closeLit| {
        assert payload[j..j + |p.closeLit|] == tail[j - from..j - from + |p.closeLit|];
      }
    }
    forall j | from <= j && (r < 0 || j < from + r)
      ensures !OccursAt(payload, p.closeLit, j)
    {
      assert !OccursAt(tail, p.closeLit, j - from);
    }
  }

  lemma {:induction false} ScanPush(payload: string, scan: seq<Scanned>, e: Scanned)
    requires IsScan(payload, scan) && Bounded(payload, scan)
    requires e.pair < |PAIRS| && e.start <= e.openEnd <= |payload| && Describes(payload, ResumeAfter(scan), e)
    ensures IsScan(payload, scan + [e]) && Bounded(payload, scan + [e]) && ResumeAfter(scan + [e]) == Resume(e)
    ensures Zones(payload, scan + [e]) == Zones(payload, scan) + if e.close.Some? then [ZoneOf(payload, e)] else []
  {
    hide Describes, Zones, Resume, ZoneOf, Bounded;
    BoundedPush(payload, scan, e);
    ResumePush(scan, e);
    var more := scan + [e];
    assert more[..|scan|] == scan;
    forall k | 0 <= k < |more|
      ensures Describes(payload, ResumeAfter(more[..k]), more[k])
    {
      assert more[..k] == scan[..k];
      assert k == |scan| ==> scan[..k] == scan;
    }
    ZonesPush(payload, scan, e);
  }

  lemma BoundedPush(payload: string, scan: seq<Scanned>, e: Scanned)
    requires Bounded(payload, scan) && e.pair < |PAIRS| && e.start <= e.openEnd <= |payload|
    ensures Bounded(payload, scan + [e]) && forall x :: x in scan + [e] ==> x.pair < |PAIRS|
  {
  }

  lemma ResumePush(scan: seq<Scanned>, e: Scanned)
    requires forall x :: x in scan + [e] ==> x.pair < |PAIRS|
    ensures e.pair < |PAIRS| && ResumeAfter(scan + [e]) == Resume(e)
  {
    assert e in scan + [e];
  }

  lemma ZonesPush(payload: string, scan: seq<Scanned>, e: Scanned)
    requires Bounded(payload, scan + [e]) && Bounded(payload, scan)
    ensures e in scan + [e]
    ensures Zones(payload, scan + [e]) == Zones(payload, scan) + if e.close.Some? then [ZoneOf(payload, e)] else []
  {
    assert (scan + [e])[..|scan|] == scan;
    assert (scan + [e])[|scan|] == e;
  }

  lemma NothingBehindTheEnd(payload: string)
    ensures forall k: nat :: |payload| <= k ==> !OpeningAt(payload, k)
  {
    Literals();
  }

  /** One round of the walk: the next opening tag, its zone if it is closed, and where
      to go on. */
  method ScanTag(payload: string, from: nat) returns (found: bool, zone: Option<TagZone>, resume: nat, ghost e: Scanned)
    ensures !found ==> forall k: nat :: from <= k ==> !OpeningAt(payload, k)
    ensures found ==>
              && Describes(payload, from, e) && e.start <= e.openEnd <= |payload|
              && from < resume <= |payload| && resume == Resume(e)
              && zone == if e.close.Some? then Some(ZoneOf(payload, e)) else None
  {
    hide OpeningAt, FirstClose, OccursAt, Opens, IsSpace, HtmlEnd, FenceEnd, IndexOf;
    e := Scanned(0, 0, 0, None);
    var next, openLiteral;
    ghost var pair;
    next, openLiteral, pair := FindNextOpenTag(payload, from);
    if next.None? {
      return false, None, 0, e;
    }
    var openIdx := next.value;
    OpensOccurs(payload, PAIRS[pair], openIdx);
    var which := FindOpenPairIndex(payload, openIdx, pair);
    var openTag := PAIRS[which];
    Literals();
    var openEnd := openIdx + |openLiteral|;
    assert openEnd == TagEnd(payload, openTag, openIdx);
    var closeIdx := BytesIndex(payload[openEnd..], openTag.closeLit);
    CloseFound(payload, openTag, openEnd, closeIdx);
    e := Scanned(pair, openIdx, openEnd, if closeIdx < 0 then None else Some(openEnd + closeIdx));
    if closeIdx < 0 {
      return true, None, openEnd, e;
    }
    closeIdx := closeIdx + openEnd;
    var endIdx := closeIdx + |openTag.closeLit|;
    return true, Some(TagZone(openLiteral, openTag.closeLit, openIdx, endIdx)), endIdx, e;
  }

  method FindProtectedZones(payload: string) returns (zones: seq<TagZone>, ghost scan: seq<Scanned>)
    ensures IsWholeScan(payload, scan) && Bounded(payload, scan) && zones == Zones(payload, scan)
  {
    zones, scan := [], [];
    var i := 0;
    NothingBehindTheEnd(payload);
    while i < |payload|
      invariant IsScan(payload, scan) && Bounded(payload, scan) && zones == Zones(payload, scan)
      invariant i == ResumeAfter(scan) <= |payload|
      decreases |payload| - i
    {
      hide IsScan, Zones, ResumeAfter, OpeningAt, Describes, Bounded;
      var found, zone, resume;
      ghost var e;
      found, zone, resume, e := ScanTag(payload, i);
      if !found {
        break;
      }
      DescribedPair(payload, i, e);
      ScanPush(payload, scan, e);
      scan := scan + [e];
      i := resume;
      if zone.None? {
        continue;
      }
      zones := zones + [zone.value];
    }
  }

  lemma DescribedPair(payload: string, from: nat, e: Scanned)
    requires Describes(payload, from, e)
    ensures e.pair < |PAIRS|
  {
  }

  // ----- what the zones are ------------------------------------------------

  /** The zone begins with an opening tag and ends at the first close after it. */
  ghost predicate WellShaped(payload: string, z: TagZone)
  {
    && z.start < z.end <= |payload|
    && exists i :: 0 <= i < |PAIRS| && Opens(payload, PAIRS[i], z.start) && Encloses(payload, PAIRS[i], z)
  }

  ghost predicate Encloses(payload: string, p: TagPair, z: TagZone)
    requires Opens(payload, p, z.start) && z.end <= |payload|
  {
    var openEnd := TagEnd(payload, p, z.start);
    && z.openTag == payload[z.start..openEnd] && p.openLit <= z.openTag
    && z.closeTag == p.closeLit && openEnd + |p.closeLit| <= z.end
    && FirstClose(payload, p, openEnd, Some(z.end - |p.closeLit|))
  }

  lemma PrefixOfSlice(s: string, lit: string, a: nat, b: nat)
    requires OccursAt(s, lit, a) && a + |lit| <= b <= |s|
    ensures lit <= s[a..b]
  {
    assert s[a..b][..|lit|] == s[a..a + |lit|];
  }

  lemma ClosedEntryIsWellShaped(payload: string, from: nat, e: Scanned)
    requires Describes(payload, from, e) && e.close.Some?
    ensures e.start <= e.openEnd <= Resume(e) <= |payload| && from <= e.start < Resume(e)
    ensures WellShaped(payload, ZoneOf(payload, e))
  {
    hide HtmlEnd, FenceEnd, IsSpace;
    Literals();
    var p := PAIRS[e.pair];
    var z := TagZone(payload[e.start..e.openEnd], p.closeLit, e.start, Resume(e));
    PrefixOfSlice(payload, p.openLit, e.start, e.openEnd);
    assert Encloses(payload, p, z);
    assert z == ZoneOf(payload, e);
  }

  lemma EntryMovesOn(payload: string, from: nat, e: Scanned)
    requires Describes(payload, from, e)
    ensures from <= e.start < e.openEnd <= Resume(e)
  {
    Literals();
  }

  /** Zones are in bounds and well shaped, and each one ends before the next begins. */
  lemma {:induction false} ZonesAreSound(payload: string, scan: seq<Scanned>)
    requires IsScan(payload, scan) && Bounded(payload, scan)
    ensures forall z :: z in Zones(payload, scan) ==> WellShaped(payload, z) && z.end <= ResumeAfter(scan)
    ensures forall k, l :: 0 <= k < l < |Zones(payload, scan)| ==>
              Zones(payload, scan)[k].end <= Zones(payload, scan)[l].start
  {
    hide Describes, WellShaped;
    if |scan| > 0 {
      var init, e := scan[..|scan| - 1], scan[|scan| - 1];
      assert e in scan && forall x :: x in init ==> x in scan;
      InitIsScan(payload, scan);
      ZonesAreSound(payload, init);
      EntryMovesOn(payload, ResumeAfter(init), e);
      if e.close.Some? {
        ClosedEntryIsWellShaped(payload, ResumeAfter(init), e);
      }
      var before := Zones(payload, init);
      forall k | 0 <= k < |before|
        ensures before[k].end <= e.start
      {
        assert before[k] in before;
      }
    }
  }

  lemma InitIsScan(payload: string, scan: seq<Scanned>)
    requires IsScan(payload, scan) && |scan| > 0
    ensures IsScan(payload, scan[..|scan| - 1])
    ensures scan[|scan| - 1].pair < |PAIRS|
    ensures Describes(payload, ResumeAfter(scan[..|scan| - 1]), scan[|scan| - 1])
  {
    hide Describes;
    var init := scan[..|scan| - 1];
    forall k | 0 <= k < |init|
      ensures Describes(payload, ResumeAfter(init[..k]), init[k])
    {
      assert init[..k] == scan[..k];
    }
    assert scan[|scan| - 1] in scan;
  }

  /** No opening tag escapes: each one the expressions would match lies in a zone, or in
      the opening tag of one that is never closed. */
  lemma {:induction false} EveryOpeningIsCovered(payload: string, scan: seq<Scanned>, k: nat)
    requires IsScan(payload, scan) && Bounded(payload, scan) && OpeningAt(payload, k) && k < ResumeAfter(scan)
    ensures (exists z :: z in Zones(payload, scan) && z.start <= k < z.end)
         || (exists e :: e in scan && e.close.None? && e.start <= k < e.openEnd)
  {
    hide WellShaped, OpeningAt, TagEnd, Opens, FirstClose;
    if |scan| > 0 {
      var init, e := scan[..|scan| - 1], scan[|scan| - 1];
      assert e in scan && forall x :: x in init ==> x in scan;
      InitIsScan(payload, scan);
      if k < ResumeAfter(init) {
        EveryOpeningIsCovered(payload, init, k);
      } else {
        assert e.start <= k < Resume(e);
        if e.close.Some? {
          assert ZoneOf(payload, e) in Zones(payload, scan);
        }
      }
    }
  }

  /** The promises together, for the scan of a whole payload. */
  lemma {:induction false} ProtectedZones(payload: string, scan: seq<Scanned>)
    requires IsWholeScan(payload, scan) && Bounded(payload, scan)
    ensures var zones := Zones(payload, scan);
            && (forall z :: z in zones ==> WellShaped(payload, z))
            && (forall k, l :: 0 <= k < l < |zones| ==> zones[k].end <= zones[l].start)
            && forall k: nat :: OpeningAt(payload, k) ==>
                 || (exists z :: z in zones && z.start <= k < z.end)
                 || (exists e :: e in scan && e.close.None? && e.start <= k < e.openEnd)
  {
    hide Zones, IsScan, WellShaped, OpeningAt, Bounded, ResumeAfter;
    ZonesAreSound(payload, scan);
    forall k: nat | OpeningAt(payload, k)
      ensures (exists z :: z in Zones(payload, scan) && z.start <= k < z.end)
           || (exists e :: e in scan && e.close.None? && e.start <= k < e.openEnd)
    {
      EveryOpeningIsCovered(payload, scan, k);
    }
  }

  /** The scan begins at the start, and goes on behind the closing literal of a zone, and
      behind the opening tag of one that is never closed. */
  lemma ScanGoesOn(payload: string, scan: seq<Scanned>, k: nat)
    requires IsScan(payload, scan) && k < |scan|
    ensures k == 0 ==> FirstOpening(payload, 0, scan[0].start)
    ensures k > 0 ==>
              var before := scan[k - 1];
              && before.pair < |PAIRS|
              && FirstOpening(payload, if before.close.None? then before.openEnd
                                       else before.close.value + |PAIRS[before.pair].closeLit|, scan[k].start)
  {
    assert Describes(payload, ResumeAfter(scan[..k]), scan[k]);
    DescribedStart(payload, ResumeAfter(scan[..k]), scan[k]);
    hide FirstOpening, Describes, IsScan;
    if k > 0 {
      assert scan[..k][k - 1] == scan[k - 1] && scan[k - 1] in scan;
    }
  }

  lemma DescribedStart(payload: string, from: nat, e: Scanned)
    requires Describes(payload, from, e)
    ensures FirstOpening(payload, from, e.start)
  {
  }

  // ----- what becomes a zone -----------------------------------------------

  /** The scan looks for the next opening tag before k, and finds none before k. */
  ghost predicate Reaches(payload: string, scan: seq<Scanned>, k: nat)
    requires Bounded(payload, scan)
  {
    exists n :: ReachesAfter(payload, scan, n, k)
  }

  ghost predicate ReachesAfter(payload: string, scan: seq<Scanned>, n: int, k: nat)
    requires Bounded(payload, scan)
  {
    && 0 <= n <= |scan| && (forall e :: e in scan[..n] ==> e.pair < |PAIRS|)
    && ResumeAfter(scan[..n]) <= k && forall j :: ResumeAfter(scan[..n]) <= j < k ==> !OpeningAt(payload, j)
  }

  lemma {:induction false} EntryGivesZone(payload: string, scan: seq<Scanned>, n: nat)
    requires Bounded(payload, scan) && n < |scan| && scan[n].close.Some?
    ensures scan[n] in scan && ZoneOf(payload, scan[n]) in Zones(payload, scan)
    decreases |scan|
  {
    hide ZoneOf;
    var init := scan[..|scan| - 1];
    assert scan[n] in scan && scan[|scan| - 1] in scan && forall x :: x in init ==> x in scan;
    if n < |scan| - 1 {
      EntryGivesZone(payload, init, n);
    }
  }

  /** Behind what the scan reaches, an opening tag, a body without the closing literal and
      the closing literal are one zone with just those bounds. */
  lemma ClosedTagIsAZone(payload: string, scan: seq<Scanned>, i: nat, x: string, tag: string,
                         body: string, rest: string)
    requires IsWholeScan(payload, scan) && Bounded(payload, scan) && i < |PAIRS| && Reaches(payload, scan, |x|)
    requires payload == x + (tag + (body + (PAIRS[i].closeLit + rest)))
    requires Opens(payload, PAIRS[i], |x|) && TagEndsAt(payload, PAIRS[i], |x|, |x + tag|)
    requires forall j :: 0 <= j < |body| ==> !OccursAt(body + PAIRS[i].closeLit, PAIRS[i].closeLit, j)
    ensures var zone := TagZone(tag, PAIRS[i].closeLit, |x|, |x + tag + body + PAIRS[i].closeLit|);
            && zone in Zones(payload, scan)
            && forall z :: z in Zones(payload, scan) && z.start < zone.end && zone.start < z.end ==> z == zone
  {
    hide Zones, Opens, TagEndsAt, IsScan, WellShaped;
    var p := PAIRS[i];
    var zone := TagZone(tag, p.closeLit, |x|, |x + tag + body + p.closeLit|);
    var n := ReachedEntry(payload, scan, |x|);
    var e := scan[n];
    OpensOccurs(payload, p, |x|);
    OpensOccurs(payload, PAIRS[e.pair], |x|);
    OneLiteral(payload, i, e.pair, |x|);
    TagEndByPlace(payload, p, |x|, |x + tag|);
    assert payload == (x + tag) + (body + (p.closeLit + rest));
    BodyCloses(x + tag, body, p, rest, e.close);
    EntryGivesZone(payload, scan, n);
    assert payload[|x|..|x + tag|] == tag;
    assert ZoneOf(payload, e) == zone;
    ZonesAreSound(payload, scan);
    Literals();
    var zones := Zones(payload, scan);
    forall z | z in zones && z.start < zone.end && zone.start < z.end
      ensures z == zone
    {
      var k :| 0 <= k < |zones| && zones[k] == z;
      var l :| 0 <= l < |zones| && zones[l] == zone;
    }
  }

  /** The entry for the opening tag that the scan reaches. */
  lemma ReachedEntry(payload: string, scan: seq<Scanned>, k: nat) returns (n: nat)
    requires IsWholeScan(payload, scan) && Bounded(payload, scan) && Reaches(payload, scan, k) && OpeningAt(payload, k)
    ensures n < |scan| && scan[n].start == k && Describes(payload, ResumeAfter(scan[..n]), scan[n])
  {
    hide OpeningAt, ResumeAfter;
    assert scan[..|scan|] == scan;
    var m :| ReachesAfter(payload, scan, m, k);
    if m == |scan| {
      assert false;
    }
    n := m;
    EntryMovesOn(payload, ResumeAfter(scan[..n]), scan[n]);
  }

  lemma BodyCloses(front: string, body: string, p: TagPair, rest: string, close: Option<nat>)
    requires FirstClose(front + (body + (p.closeLit + rest)), p, |front|, close)
    requires forall j :: 0 <= j < |body| ==> !OccursAt(body + p.closeLit, p.closeLit, j)
    ensures close == Some(|front| + |body|)
  {
    var s := front + (body + (p.closeLit + rest));
    assert s == (front + body) + (p.closeLit + rest);
    assert s[|front| + |body|..|front| + |body| + |p.closeLit|] == p.closeLit;
    assert OccursAt(s, p.closeLit, |front| + |body|);
    if close.Some? && close.value < |front| + |body| {
      var j := close.value - |front|;
      assert s == front + ((body + p.closeLit) + rest);
      assert s[close.value..close.value + |p.closeLit|] == (body + p.closeLit)[j..j + |p.closeLit|];
      assert OccursAt(body + p.closeLit, p.closeLit, j);
    }
  }

  /** In particular an element whose opening literal `>` follows at once. */
  lemma ElementIsProtected(payload: string, scan: seq<Scanned>, i: nat, x: string, body: string, rest: string)
    requires IsWholeScan(payload, scan) && Bounded(payload, scan) && Reaches(payload, scan, |x|)
    requires i < |PAIRS| && PAIRS[i].kind.Html?
    requires payload == x + ((PAIRS[i].openLit + ">") + (body + (PAIRS[i].closeLit + rest)))
    requires forall j :: 0 <= j < |body| ==> !OccursAt(body + PAIRS[i].closeLit, PAIRS[i].closeLit, j)
    ensures TagZone(PAIRS[i].openLit + ">", PAIRS[i].closeLit, |x|,
                    |x| + |PAIRS[i].openLit| + 1 + |body| + |PAIRS[i].closeLit|) in Zones(payload, scan)
  {
    hide Zones, IsWholeScan, Reaches, Bounded;
    var tag := PAIRS[i].openLit + ">";
    var behind := body + (PAIRS[i].closeLit + rest);
    assert payload[|x|..|x| + |PAIRS[i].openLit|] == PAIRS[i].openLit;
    assert payload[|x| + |PAIRS[i].openLit|] == '>';
    ClosedTagIsAZone(payload, scan, i, x, tag, body, rest);
  }
}
