// The sliding-window loop detector: evict, count, record, prolong, then decide. First
// for calls that run one after the other, then for calls whose Redis commands
// interleave. Times are in nanoseconds.
module LoopWindow {
  import opened Text
  import opened Redis

  const WINDOW: nat := 60_000_000_000
  const KEY_TTL: nat := 70_000_000_000
  const THRESHOLD := 3

  function ZKey(p: Pair): string
  {
    KeyOf("synapse:loops:", p)
  }

  function FirstKey(p: Pair): string
  {
    ZKey(p) + ":first"
  }

  lemma KeysApart()
    ensures forall p: Pair, q: Pair :: ZKey(p) == ZKey(q) ==> p == q
    ensures forall p: Pair, q: Pair :: FirstKey(p) == FirstKey(q) ==> p == q
  {
    forall p: Pair, q: Pair | ZKey(p) == ZKey(q)
      ensures p == q
    {
      KeyIsInjective("synapse:loops:", p, q);
    }
    forall p: Pair, q: Pair | FirstKey(p) == FirstKey(q)
      ensures p == q
    {
      assert FirstKey(p)[..|FirstKey(p)| - 6] == ZKey(p) && FirstKey(q)[..|FirstKey(q)| - 6] == ZKey(q);
    }
  }

  // ----- one call after the other ------------------------------------------

  datatype Call = Call(pair: Pair, member: Member)

  /** The calls on the pair less than 60 seconds old. */
  function Recent(history: seq<Call>, p: Pair, now: int): set<Member>
  {
    set c | c in history && c.pair == p && c.member.at > now - WINDOW :: c.member
  }

  function CountRecent(history: seq<Call>, p: Pair, now: int): nat
  {
    if |history| == 0 then 0
    else
      var c := history[|history| - 1];
      CountRecent(history[..|history| - 1], p, now) + (if c.pair == p && c.member.at > now - WINDOW then 1 else 0)
  }

  /** No two recent calls on the pair were recorded under one member. */
  ghost predicate DistinctRecent(history: seq<Call>, p: Pair, now: int)
  {
    forall i, j :: 0 <= i < j < |history| && history[i].pair == p && history[i].member.at > now - WINDOW ==>
                     history[i] != history[j]
  }

  /** The set size is the number of calls exactly when no two of them share a member. */
  lemma {:induction false} RecentCount(history: seq<Call>, p: Pair, now: int)
    ensures |Recent(history, p, now)| <= CountRecent(history, p, now)
    ensures |Recent(history, p, now)| == CountRecent(history, p, now) <==> DistinctRecent(history, p, now)
  {
    hide Recent, DistinctRecent;
    if |history| == 0 {
      NoneRecent(p, now);
      assert history == [];
    } else {
      var init, c := history[..|history| - 1], history[|history| - 1];
      assert history == init + [c];
      RecentCount(init, p, now);
      RecentOfMore(init, c, p, now);
      if c.pair == p && c.member.at > now - WINDOW && c.member in Recent(init, p, now) {
        Repeated(init, c, p, now);
      } else {
        NotRepeated(init, c, p, now);
        DistinctOfInit(init, c, p, now);
      }
    }
  }

  lemma NoneRecent(p: Pair, now: int)
    ensures Recent([], p, now) == {} && DistinctRecent([], p, now)
  {
  }

  lemma Repeated(init: seq<Call>, c: Call, p: Pair, now: int)
    requires c.pair == p && c.member in Recent(init, p, now)
    ensures !DistinctRecent(init + [c], p, now)
  {
    assert c in init;
    var i :| 0 <= i < |init| && init[i] == c;
    assert (init + [c])[i] == (init + [c])[|init|];
  }

  lemma NotRepeated(init: seq<Call>, c: Call, p: Pair, now: int)
    requires !(c.pair == p && c.member.at > now - WINDOW && c.member in Recent(init, p, now))
    ensures forall i :: 0 <= i < |init| && init[i].pair == p && init[i].member.at > now - WINDOW ==> init[i] != c
  {
    forall i | 0 <= i < |init| && init[i].pair == p && init[i].member.at > now - WINDOW
      ensures init[i] != c
    {
      assert init[i] in init && init[i].member in Recent(init, p, now);
    }
  }

  lemma DistinctOfInit(init: seq<Call>, c: Call, p: Pair, now: int)
    requires forall i :: 0 <= i < |init| && init[i].pair == p && init[i].member.at > now - WINDOW ==> init[i] != c
    ensures DistinctRecent(init + [c], p, now) <==> DistinctRecent(init, p, now)
  {
    var history := init + [c];
    assert forall i :: 0 <= i < |init| ==> history[i] == init[i];
  }

  /** Two calls recorded in the same nanosecond without a salt count as one. */
  lemma OneMemberTwoCalls(p: Pair, now: int)
    ensures var c := Call(p, Member(now, ""));
            |Recent([c, c], p, now)| == 1 && CountRecent([c, c], p, now) == 2 && !DistinctRecent([c, c], p, now)
  {
    var c := Call(p, Member(now, ""));
    RecentOfMore([], c, p, now);
    RecentOfMore([c], c, p, now);
    assert [] + [c] == [c] && [c] + [c] == [c, c];
    NoneRecent(p, now);
    assert CountRecent([c], p, now) == 1 && [c, c][..1] == [c];
    assert [c, c][0] == [c, c][1];
  }

  function LastCall(history: seq<Call>, p: Pair): Option<int>
  {
    if |history| == 0 then None
    else if history[|history| - 1].pair == p then Some(history[|history| - 1].member.at)
    else LastCall(history[..|history| - 1], p)
  }

  /** Each pair's set holds what was recent at its last call, and lives 70 seconds on. */
  ghost predicate Faithful(zs: ZSets, now: int, history: seq<Call>)
  {
    forall p: Pair ::
      match LastCall(history, p)
      case None => ZKey(p) !in zs && forall c :: c in history ==> c.pair != p
      case Some(last) =>
        && last <= now && (forall c :: c in history && c.pair == p ==> c.member.at <= last)
        && ZKey(p) in zs && zs[ZKey(p)] == ZSet(Recent(history, p, last), Some(last + KEY_TTL))
  }

  function AfterCall(zs: ZSets, now: int, key: string, m: Member): ZSets
  {
    ProlongSet(AddMember(Evict(zs, now, key, now - WINDOW), now, key, m), now, key, KEY_TTL)
  }

  /** Evicting and then counting counts the calls less than 60 seconds old: the key's
      own expiry never loses one of them. */
  lemma CountIsExact(zs: ZSets, now: int, history: seq<Call>, p: Pair)
    requires Faithful(zs, now, history)
    ensures Members(Evict(zs, now, ZKey(p), now - WINDOW), now, ZKey(p)) == Recent(history, p, now)
  {
    hide ZKey;
    var left := set m | m in Members(zs, now, ZKey(p)) && m.at > now - WINDOW;
    assert left == Recent(history, p, now);
  }

  lemma RecentOfMore(history: seq<Call>, c: Call, p: Pair, now: int)
    ensures Recent(history + [c], p, now) ==
            Recent(history, p, now) + (if c.pair == p && c.member.at > now - WINDOW then {c.member} else {})
    ensures LastCall(history + [c], p) == if c.pair == p then Some(c.member.at) else LastCall(history, p)
  {
    assert (history + [c])[..|history|] == history;
  }

  lemma CallKeepsFaithful(zs: ZSets, now: int, history: seq<Call>, p: Pair, salt: string)
    requires Faithful(zs, now, history)
    ensures Faithful(AfterCall(zs, now, ZKey(p), Member(now, salt)), now, history + [Call(p, Member(now, salt))])
  {
    hide ZKey, LastCall, Recent;
    var c := Call(p, Member(now, salt));
    var evicted := Evict(zs, now, ZKey(p), now - WINDOW);
    var after := AfterCall(zs, now, ZKey(p), c.member);
    CountIsExact(zs, now, history, p);
    assert after[ZKey(p)] == ZSet(Recent(history, p, now) + {c.member}, Some(now + KEY_TTL));
    KeysApart();
    forall q: Pair
      ensures match LastCall(history + [c], q)
              case None => ZKey(q) !in after && forall d :: d in history + [c] ==> d.pair != q
              case Some(last) =>
                && last <= now && (forall d :: d in history + [c] && d.pair == q ==> d.member.at <= last)
                && ZKey(q) in after && after[ZKey(q)] == ZSet(Recent(history + [c], q, last), Some(last + KEY_TTL))
    {
      RecentOfMore(history, c, q, now);
      if q != p && LastCall(history, q).Some? {
        RecentOfMore(history, c, q, LastCall(history, q).value);
      }
    }
  }

  datatype LoopDetectResult = LoopDetectResult(isLoop: bool, loopCount: nat, shouldReuse: bool,
                                                reusePayload: string, triggerKillSwitch: bool)

  /** Evict, count, record, prolong. */
  method RecordCall(rdb: Server, p: Pair, salt: string, ghost history: seq<Call>) returns (count: nat)
    requires Faithful(rdb.zsets, rdb.now, history)
    modifies rdb`zsets
    ensures Faithful(rdb.zsets, rdb.now, history + [Call(p, Member(rdb.now, salt))])
    ensures count == |Recent(history, p, rdb.now)|
  {
    hide *;
    ghost var zs := rdb.zsets;
    CountIsExact(zs, rdb.now, history, p);
    CallKeepsFaithful(zs, rdb.now, history, p, salt);
    var zKey := ZKey(p);
    rdb.ZRemRangeByScore(zKey, rdb.now - WINDOW);
    count := rdb.ZCard(zKey);
    rdb.ZAdd(zKey, Member(rdb.now, salt));
    rdb.ExpireSet(zKey, KEY_TTL);
    FourCommands(zs, rdb.now, zKey, Member(rdb.now, salt));
  }

  lemma FourCommands(zs: ZSets, now: int, key: string, m: Member)
    ensures ProlongSet(AddMember(Evict(zs, now, key, now - WINDOW), now, key, m), now, key, KEY_TTL) ==
            AfterCall(zs, now, key, m)
  {
  }

  /** The detector on its own: the count is one plus the recent calls, from the third
      call on the kill switch or the stored first response decides. */
  method DetectLoop(rdb: Server, p: Pair, killSwitch: bool, salt: string, ghost history: seq<Call>)
      returns (r: LoopDetectResult)
    requires Faithful(rdb.zsets, rdb.now, history)
    modifies rdb`zsets, rdb`db
    ensures Faithful(rdb.zsets, rdb.now, history + [Call(p, Member(rdb.now, salt))])
    ensures r.loopCount == 1 + |Recent(history, p, rdb.now)|
    ensures r.isLoop <==> r.loopCount >= 2
    ensures r.triggerKillSwitch <==> r.loopCount >= 3 && killSwitch
    ensures var first := Get(old(rdb.db), rdb.now, FirstKey(p));
            && (r.shouldReuse <==> r.loopCount >= 3 && !killSwitch && first.Some? && |first.value| > 0)
            && r.reusePayload == (if r.shouldReuse then first.value else "")
            && rdb.db == if r.shouldReuse then Prolong(old(rdb.db), rdb.now, FirstKey(p), KEY_TTL) else old(rdb.db)
  {
    hide Faithful, Recent;
    var firstKey := FirstKey(p);
    var count := RecordCall(rdb, p, salt, history);
    var loopCount := count + 1;
    if loopCount == 1 {
      return LoopDetectResult(false, loopCount, false, "", false);
    }
    if loopCount >= THRESHOLD {
      if killSwitch {
        return LoopDetectResult(true, loopCount, false, "", true);
      }
      var cached := rdb.Fetch(firstKey);
      if cached.Some? && |cached.value| > 0 {
        rdb.Expire(firstKey, KEY_TTL);
        return LoopDetectResult(true, loopCount, true, cached.value, false);
      }
    }
    return LoopDetectResult(true, loopCount, false, "", false);
  }

  datatype Arrival = Arrival(gap: nat, pair: Pair, killSwitch: bool, salt: string)

  function TimeAfter(start: int, arrivals: seq<Arrival>): int
  {
    if |arrivals| == 0 then start
    else TimeAfter(start, arrivals[..|arrivals| - 1]) + arrivals[|arrivals| - 1].gap
  }

  function Calls(start: int, arrivals: seq<Arrival>): (calls: seq<Call>)
    ensures |calls| == |arrivals|
  {
    if |arrivals| == 0 then []
    else
      var last := arrivals[|arrivals| - 1];
      Calls(start, arrivals[..|arrivals| - 1]) + [Call(last.pair, Member(TimeAfter(start, arrivals), last.salt))]
  }

  /** Any sequence of calls with any gaps between them, on any pairs: the k-th count is
      one plus the number of earlier calls on its pair less than 60 seconds old, exactly
      when no two of those were recorded under one member. */
  method DetectAll(rdb: Server, arrivals: seq<Arrival>) returns (counts: seq<nat>)
    requires rdb.zsets == map[]
    modifies rdb
    ensures |counts| == |arrivals|
    ensures forall k :: 0 <= k < |arrivals| ==>
              CountOf(old(rdb.now), arrivals, k, counts[k])
  {
    counts := [];
    NothingYet();
    ghost var start := rdb.now;
    hide Faithful, CountOf;
    for k := 0 to |arrivals|
      invariant rdb.now == TimeAfter(start, arrivals[..k])
      invariant Faithful(rdb.zsets, rdb.now, Calls(start, arrivals[..k]))
      invariant |counts| == k && forall i :: 0 <= i < k ==> CountOf(start, arrivals, i, counts[i])
    {
      var count := DetectNext(rdb, start, arrivals, k);
      counts := counts + [count];
    }
  }

  method DetectNext(rdb: Server, ghost start: int, arrivals: seq<Arrival>, k: nat) returns (count: nat)
    requires k < |arrivals| && rdb.now == TimeAfter(start, arrivals[..k])
    requires Faithful(rdb.zsets, rdb.now, Calls(start, arrivals[..k]))
    modifies rdb
    ensures rdb.now == TimeAfter(start, arrivals[..k + 1])
    ensures Faithful(rdb.zsets, rdb.now, Calls(start, arrivals[..k + 1]))
    ensures CountOf(start, arrivals, k, count)
  {
    hide Faithful, Recent, CountRecent, DistinctRecent;
    var a := arrivals[k];
    ghost var history := Calls(start, arrivals[..k]);
    assert arrivals[..k + 1][..k] == arrivals[..k];
    WaitKeepsFaithful(rdb.zsets, rdb.now, a.gap, history);
    rdb.Elapse(a.gap);
    var r := DetectLoop(rdb, a.pair, a.killSwitch, a.salt, history);
    RecentCount(history, a.pair, rdb.now);
    count := r.loopCount;
  }

  lemma NothingYet()
    ensures forall now: int :: Faithful(map[], now, [])
  {
    assert forall p: Pair :: LastCall([], p) == None;
  }

  lemma WaitKeepsFaithful(zs: ZSets, now: int, gap: nat, history: seq<Call>)
    requires Faithful(zs, now, history)
    ensures Faithful(zs, now + gap, history)
  {
  }

  ghost predicate CountOf(start: int, arrivals: seq<Arrival>, k: nat, count: nat)
    requires k < |arrivals|
  {
    var earlier := Calls(start, arrivals[..k]);
    var now := TimeAfter(start, arrivals[..k + 1]);
    && count == 1 + |Recent(earlier, arrivals[k].pair, now)| <= 1 + CountRecent(earlier, arrivals[k].pair, now)
    && (count == 1 + CountRecent(earlier, arrivals[k].pair, now) <==> DistinctRecent(earlier, arrivals[k].pair, now))
  }

  // ----- interleaved calls -------------------------------------------------

  datatype Verdict = Pass | KillSwitch | Reuse(bytes: string)

  /** How far a call has come: since when it counts, and how many it saw. */
  datatype Phase =
    | Evicted(since: int)
    | Counted(since: int, seen: nat)
    | Recorded(since: int, seen: nat)
    | Prolonged(since: int, seen: nat)
    | Decided(since: int, seen: nat, verdict: Verdict)

  datatype Ticket = Ticket(pair: Pair, phase: Phase)

  datatype Step =
    | Tick(ns: nat)
    | Begin(id: nat, pair: Pair)
    | Count(id: nat)
    | Record(id: nat, salt: string)
    | Touch(id: nat)
    | Decide(id: nat, killSwitch: bool)
    | StoreFirst(pair: Pair, bytes: string)
    | TouchFirst(pair: Pair)
    | UnlinkSet(pair: Pair)
    | UnlinkFirst(pair: Pair)

  /** `recorded` remembers every member ever added. */
  datatype State = State(now: int, zsets: ZSets, db: Keyspace, calls: map<nat, Ticket>, recorded: map<nat, Call>)

  function DecisionFor(s: State, t: Ticket, killSwitch: bool): Verdict
    requires t.phase.Prolonged?
  {
    if t.phase.seen + 1 < THRESHOLD then Pass
    else if killSwitch then KillSwitch
    else
      var first := Get(s.db, s.now, FirstKey(t.pair));
      if first.Some? && |first.value| > 0 then Reuse(first.value) else Pass
  }

  /** One Redis command of one call, or the purge handler dropping one key. */
  function Apply(s: State, step: Step): State
  {
    match step
    case Tick(ns) => s.(now := s.now + ns)
    case Begin(id, p) =>
      if id in s.calls then s
      else s.(zsets := Evict(s.zsets, s.now, ZKey(p), s.now - WINDOW),
              calls := s.calls[id := Ticket(p, Evicted(s.now - WINDOW))])
    case Count(id) =>
      if id !in s.calls || !s.calls[id].phase.Evicted? then s
      else
        var t := s.calls[id];
        s.(calls := s.calls[id := Ticket(t.pair, Counted(t.phase.since, |Members(s.zsets, s.now, ZKey(t.pair))|))])
    case Record(id, salt) =>
      if id !in s.calls || !s.calls[id].phase.Counted? then s
      else
        var t := s.calls[id];
        s.(zsets := AddMember(s.zsets, s.now, ZKey(t.pair), Member(s.now, salt)),
           recorded := s.recorded[id := Call(t.pair, Member(s.now, salt))],
           calls := s.calls[id := Ticket(t.pair, Recorded(t.phase.since, t.phase.seen))])
    case Touch(id) =>
      if id !in s.calls || !s.calls[id].phase.Recorded? then s
      else
        var t := s.calls[id];
        s.(zsets := ProlongSet(s.zsets, s.now, ZKey(t.pair), KEY_TTL),
           calls := s.calls[id := Ticket(t.pair, Prolonged(t.phase.since, t.phase.seen))])
    case Decide(id, killSwitch) =>
      if id !in s.calls || !s.calls[id].phase.Prolonged? then s
      else
        var t := s.calls[id];
        s.(calls := s.calls[id := Ticket(t.pair, Decided(t.phase.since, t.phase.seen, DecisionFor(s, t, killSwitch)))])
    case StoreFirst(p, bytes) =>
      if |bytes| == 0 then s
      else s.(db := Put(s.db, s.now, FirstKey(p), bytes, KEY_TTL))
    case TouchFirst(p) => s.(db := Prolong(s.db, s.now, FirstKey(p), KEY_TTL))
    case UnlinkSet(p) => s.(zsets := RemoveSet(s.zsets, ZKey(p)))
    case UnlinkFirst(p) => s.(db := Remove(s.db, FirstKey(p)))
  }

  function Run(s: State, steps: seq<Step>): State
    decreases |steps|
  {
    if |steps| == 0 then s else Apply(Run(s, steps[..|steps| - 1]), steps[|steps| - 1])
  }

  /** The other calls on the pair recorded after `since`. */
  function Others(s: State, id: nat, p: Pair, since: int): set<nat>
  {
    set j | j in s.recorded && j != id && s.recorded[j].pair == p && s.recorded[j].member.at > since
  }

  ghost predicate Remembered(s: State, p: Pair, m: Member)
  {
    exists j :: j in s.recorded && s.recorded[j] == Call(p, m)
  }

  ghost predicate SetsMatch(s: State)
  {
    forall p: Pair, m :: m in Members(s.zsets, s.now, ZKey(p)) ==> Remembered(s, p, m)
  }

  ghost predicate TicketOk(s: State, id: nat)
    requires id in s.calls
  {
    var t := s.calls[id];
    match t.phase
    case Evicted(since) =>
      since + WINDOW <= s.now && id !in s.recorded
      && forall m :: m in Members(s.zsets, s.now, ZKey(t.pair)) ==> m.at > since
    case Counted(since, seen) => |Others(s, id, t.pair, since)| >= seen && id !in s.recorded
    case Recorded(since, seen) => |Others(s, id, t.pair, since)| >= seen
    case Prolonged(since, seen) => |Others(s, id, t.pair, since)| >= seen
    case Decided(since, seen, verdict) =>
      && |Others(s, id, t.pair, since)| >= seen
      && (verdict != Pass ==> seen + 1 >= THRESHOLD)
  }

  ghost predicate Inv(s: State)
  {
    && SetsMatch(s)
    && (forall id :: id in s.calls ==> TicketOk(s, id))
    && (forall id :: id in s.recorded ==> id in s.calls)
  }

  lemma {:induction false} SubsetIsSmaller(a: set<nat>, b: set<nat>)
    requires a <= b
    ensures |a| <= |b|
  {
    if a != {} {
      var x :| x in a;
      SubsetIsSmaller(a - {x}, b - {x});
    }
  }

  /** Different members were recorded by different calls. */
  lemma {:induction false} MembersNeedCalls(ms: set<Member>, ids: set<nat>, recorded: map<nat, Call>)
    requires forall j :: j in ids ==> j in recorded
    requires forall m :: m in ms ==> exists j :: j in ids && recorded[j].member == m
    ensures |ms| <= |ids|
  {
    if ms != {} {
      var m :| m in ms;
      var j :| j in ids && recorded[j].member == m;
      forall n | n in ms - {m}
        ensures exists i :: i in ids - {j} && recorded[i].member == n
      {
        var i :| i in ids && recorded[i].member == n;
        assert i in ids - {j};
      }
      MembersNeedCalls(ms - {m}, ids - {j}, recorded);
    }
  }

  // How the commands change what is live under each key.

  lemma AddAdds(zs: ZSets, now: int, key: string, m: Member, other: string)
    ensures Members(AddMember(zs, now, key, m), now, other) ==
            Members(zs, now, other) + if other == key then {m} else {}
  {
  }

  lemma ProlongKeepsMembers(zs: ZSets, now: int, key: string, other: string)
    ensures Members(ProlongSet(zs, now, key, KEY_TTL), now, other) == Members(zs, now, other)
  {
  }

  /** What every step does to what is remembered. */
  ghost predicate Extends(s: State, t: State)
  {
    && (forall j :: j in s.recorded ==> j in t.recorded && t.recorded[j] == s.recorded[j])
    && s.now <= t.now
  }

  /** Nothing is live but what was, or what was added just now. */
  ghost predicate OnlyNewMembers(s: State, t: State)
  {
    forall p: Pair, m :: m in Members(t.zsets, t.now, ZKey(p)) ==>
      m in Members(s.zsets, s.now, ZKey(p)) || (m.at == s.now && Remembered(t, p, m))
  }

  lemma OthersGrow(s: State, t: State, id: nat, p: Pair, since: int)
    requires Extends(s, t)
    ensures |Others(s, id, p, since)| <= |Others(t, id, p, since)|
  {
    SubsetIsSmaller(Others(s, id, p, since), Others(t, id, p, since));
  }

  lemma TicketSurvives(s: State, t: State, id: nat)
    requires Extends(s, t) && OnlyNewMembers(s, t)
    requires id in s.calls && id in t.calls && t.calls[id] == s.calls[id] && TicketOk(s, id)
    requires id in t.recorded ==> id in s.recorded
    ensures TicketOk(t, id)
  {
    hide Others, ZKey, Extends, Remembered;
    TimeGoesOn(s, t);
    OthersGrow(s, t, id, s.calls[id].pair, s.calls[id].phase.since);
  }

  lemma TimeGoesOn(s: State, t: State)
    requires Extends(s, t)
    ensures s.now <= t.now
  {
  }

  lemma SetsSurvive(s: State, t: State)
    requires SetsMatch(s) && Extends(s, t) && OnlyNewMembers(s, t)
    ensures SetsMatch(t)
  {
    hide ZKey;
    forall p: Pair, m | m in Members(t.zsets, t.now, ZKey(p))
      ensures Remembered(t, p, m)
    {
      if m in Members(s.zsets, s.now, ZKey(p)) {
        var j :| j in s.recorded && s.recorded[j] == Call(p, m);
        assert j in t.recorded && t.recorded[j] == Call(p, m);
      }
    }
  }

  /** A step that touches one ticket at most keeps all the others sound. */
  lemma OthersKeep(s: State, t: State, except: Option<nat>)
    requires Inv(s) && Extends(s, t) && OnlyNewMembers(s, t)
    requires forall id :: id in t.calls && except != Some(id) ==>
               id in s.calls && t.calls[id] == s.calls[id] && (id in t.recorded ==> id in s.recorded)
    ensures SetsMatch(t) && forall id :: id in t.calls && except != Some(id) ==> TicketOk(t, id)
  {
    hide SetsMatch, TicketOk, Extends, OnlyNewMembers;
    SetsSurvive(s, t);
    forall id | id in t.calls && except != Some(id)
      ensures TicketOk(t, id)
    {
      TicketSurvives(s, t, id);
    }
  }

  lemma TickKeeps(s: State, ns: nat)
    requires Inv(s)
    ensures Inv(Apply(s, Tick(ns)))
  {
    hide ZKey, FirstKey, TicketOk, SetsMatch;
    var t := Apply(s, Tick(ns));
    assert OnlyNewMembers(s, t);
    OthersKeep(s, t, None);
  }

  lemma BeginKeeps(s: State, id: nat, p: Pair)
    requires Inv(s) && id !in s.calls
    ensures Inv(Apply(s, Begin(id, p)))
  {
    hide ZKey, FirstKey, SetsMatch;
    KeysApart();
    var t := Apply(s, Begin(id, p));
    forall q: Pair
      ensures Members(t.zsets, t.now, ZKey(q)) <= Members(s.zsets, s.now, ZKey(q))
    {
      EvictFilters(s.zsets, s.now, ZKey(p), s.now - WINDOW, ZKey(q));
    }
    EvictFilters(s.zsets, s.now, ZKey(p), s.now - WINDOW, ZKey(p));
    OthersKeep(s, t, Some(id));
  }

  /** The members seen were recorded by as many other calls. */
  lemma SeenWereRecorded(s: State, id: nat)
    requires SetsMatch(s) && id in s.calls && s.calls[id].phase.Evicted? && TicketOk(s, id)
    ensures var p := s.calls[id].pair;
            |Members(s.zsets, s.now, ZKey(p))| <= |Others(s, id, p, s.calls[id].phase.since)|
  {
    hide ZKey, Members;
    var p, since := s.calls[id].pair, s.calls[id].phase.since;
    var seen := Members(s.zsets, s.now, ZKey(p));
    forall m | m in seen
      ensures exists j :: j in Others(s, id, p, since) && s.recorded[j].member == m
    {
      assert Remembered(s, p, m);
      var j :| j in s.recorded && s.recorded[j] == Call(p, m);
      assert j in Others(s, id, p, since);
    }
    MembersNeedCalls(seen, Others(s, id, p, since), s.recorded);
  }

  lemma SameOthers(s: State, t: State, id: nat, p: Pair, since: int)
    requires s.recorded == t.recorded
    ensures Others(s, id, p, since) == Others(t, id, p, since)
  {
  }

  lemma CountKeeps(s: State, id: nat)
    requires Inv(s) && id in s.calls && s.calls[id].phase.Evicted?
    ensures Inv(Apply(s, Count(id)))
  {
    assert TicketOk(s, id);
    SeenWereRecorded(s, id);
    hide ZKey, FirstKey, Members, SetsMatch, Remembered;
    var t := Apply(s, Count(id));
    SameOthers(s, t, id, s.calls[id].pair, s.calls[id].phase.since);
    assert OnlyNewMembers(s, t);
    hide OnlyNewMembers;
    OthersKeep(s, t, Some(id));
  }

  lemma RecordShape(s: State, id: nat, salt: string)
    requires Inv(s) && id in s.calls && s.calls[id].phase.Counted?
    ensures var t := Apply(s, Record(id, salt));
            var was, c := s.calls[id], Call(s.calls[id].pair, Member(s.now, salt));
            && t == State(s.now, AddMember(s.zsets, s.now, ZKey(was.pair), c.member), s.db,
                          s.calls[id := Ticket(was.pair, Recorded(was.phase.since, was.phase.seen))],
                          s.recorded[id := c])
            && id !in s.recorded && Extends(s, t) && Remembered(t, was.pair, c.member)
  {
    hide ZKey, AddMember, SetsMatch, Others;
    assert TicketOk(s, id);
    var t := Apply(s, Record(id, salt));
    assert t.recorded[id] == Call(s.calls[id].pair, Member(s.now, salt));
  }

  lemma RecordAddsOne(s: State, t: State, p: Pair, m: Member)
    requires t.now == s.now && t.zsets == AddMember(s.zsets, s.now, ZKey(p), m) && m.at == s.now && Remembered(t, p, m)
    ensures OnlyNewMembers(s, t)
  {
    KeysApart();
    hide ZKey, Remembered;
    forall q: Pair
      ensures Members(t.zsets, t.now, ZKey(q)) == Members(s.zsets, s.now, ZKey(q)) + if q == p then {m} else {}
    {
      AddAdds(s.zsets, s.now, ZKey(p), m, ZKey(q));
    }
  }

  lemma RecordKeeps(s: State, id: nat, salt: string)
    requires Inv(s) && id in s.calls && s.calls[id].phase.Counted?
    ensures Inv(Apply(s, Record(id, salt)))
  {
    hide ZKey, FirstKey, SetsMatch, Apply, AddMember, Extends, OnlyNewMembers, Remembered, Others;
    var t := Apply(s, Record(id, salt));
    var p := s.calls[id].pair;
    assert TicketOk(s, id);
    RecordShape(s, id, salt);
    RecordAddsOne(s, t, p, Member(s.now, salt));
    OthersGrow(s, t, id, p, s.calls[id].phase.since);
    OthersKeep(s, t, Some(id));
  }

  lemma TouchKeeps(s: State, id: nat)
    requires Inv(s) && id in s.calls && s.calls[id].phase.Recorded?
    ensures Inv(Apply(s, Touch(id)))
  {
    hide ZKey, FirstKey, SetsMatch;
    var t := Apply(s, Touch(id));
    assert TicketOk(s, id);
    forall q: Pair
      ensures Members(t.zsets, t.now, ZKey(q)) == Members(s.zsets, s.now, ZKey(q))
    {
      ProlongKeepsMembers(s.zsets, s.now, ZKey(s.calls[id].pair), ZKey(q));
    }
    OthersGrow(s, t, id, s.calls[id].pair, s.calls[id].phase.since);
    OthersKeep(s, t, Some(id));
  }

  lemma DecideKeeps(s: State, id: nat, killSwitch: bool)
    requires Inv(s) && id in s.calls && s.calls[id].phase.Prolonged?
    ensures Inv(Apply(s, Decide(id, killSwitch)))
  {
    hide ZKey, FirstKey, SetsMatch;
    var t := Apply(s, Decide(id, killSwitch));
    assert TicketOk(s, id);
    OthersGrow(s, t, id, s.calls[id].pair, s.calls[id].phase.since);
    OthersKeep(s, t, Some(id));
  }

  lemma FirstKeeps(s: State, step: Step)
    requires Inv(s) && (step.StoreFirst? || step.TouchFirst? || step.UnlinkFirst?)
    ensures Inv(Apply(s, step))
  {
    hide ZKey, FirstKey, SetsMatch, TicketOk;
    KeysApart();
    var t := Apply(s, step);
    OthersKeep(s, t, None);
  }

  lemma UnlinkSetKeeps(s: State, p: Pair)
    requires Inv(s)
    ensures Inv(Apply(s, UnlinkSet(p)))
  {
    hide ZKey, FirstKey, SetsMatch, TicketOk;
    var t := Apply(s, UnlinkSet(p));
    forall q: Pair
      ensures Members(t.zsets, t.now, ZKey(q)) <= Members(s.zsets, s.now, ZKey(q))
    {
      RemoveSetRemoves(s.zsets, s.now, ZKey(p), ZKey(q));
    }
    OthersKeep(s, t, None);
  }

  lemma StepKeeps(s: State, step: Step)
    requires Inv(s)
    ensures Inv(Apply(s, step))
  {
    hide Inv;
    match step
    case Tick(ns) => TickKeeps(s, ns);
    case Begin(id, p) => if id !in s.calls { BeginKeeps(s, id, p); }
    case Count(id) => if id in s.calls && s.calls[id].phase.Evicted? { CountKeeps(s, id); }
    case Record(id, salt) => if id in s.calls && s.calls[id].phase.Counted? { RecordKeeps(s, id, salt); }
    case Touch(id) => if id in s.calls && s.calls[id].phase.Recorded? { TouchKeeps(s, id); }
    case Decide(id, kill) => if id in s.calls && s.calls[id].phase.Prolonged? { DecideKeeps(s, id, kill); }
    case StoreFirst(p, bytes) => FirstKeeps(s, step);
    case TouchFirst(p) => FirstKeeps(s, step);
    case UnlinkSet(p) => UnlinkSetKeeps(s, p);
    case UnlinkFirst(p) => FirstKeeps(s, step);
  }

  lemma {:induction false} RunKeeps(s: State, steps: seq<Step>)
    requires Inv(s)
    ensures Inv(Run(s, steps))
    decreases |steps|
  {
    hide Inv, Apply;
    if |steps| > 0 {
      RunKeeps(s, steps[..|steps| - 1]);
      StepKeeps(Run(s, steps[..|steps| - 1]), steps[|steps| - 1]);
    }
  }

  function Initial(start: int): State
  {
    State(start, map[], map[], map[], map[])
  }

  // How long a recorded call counts.

  /** The member is live, and its set stays alive at least until `until`. */
  predicate LivesUntil(s: State, p: Pair, m: Member, until: int)
  {
    && m in Members(s.zsets, s.now, ZKey(p))
    && (s.zsets[ZKey(p)].expires.None? || until <= s.zsets[ZKey(p)].expires.value)
  }

  /** Nothing but a purge or sixty seconds' age takes a live member away. */
  lemma MemberStays(s: State, step: Step, p: Pair, m: Member, until: int)
    requires LivesUntil(s, p, m, until) && step != UnlinkSet(p)
    requires m.at <= s.now && until <= m.at + 60_000_000_000 && Apply(s, step).now < until
    ensures LivesUntil(Apply(s, step), p, m, until)
  {
    KeysApart();
    hide ZKey, FirstKey, DecisionFor, Put, Prolong;
  }

  /** A call that is on record when its set is prolonged counts for sixty seconds, whatever
      the other requests do, unless the purge drops the set. */
  lemma {:induction false} RecordedCallCounts(s: State, steps: seq<Step>, p: Pair, m: Member)
    requires m.at <= s.now && LivesUntil(s, p, m, m.at + 60_000_000_000) && UnlinkSet(p) !in steps
    ensures Run(s, steps).now < m.at + 60_000_000_000 ==>
              && m in Members(Run(s, steps).zsets, Run(s, steps).now, ZKey(p))
              && LivesUntil(Run(s, steps), p, m, m.at + 60_000_000_000)
    ensures s.now <= Run(s, steps).now
    decreases |steps|
  {
    hide Apply, ZKey, Members;
    if |steps| > 0 {
      var init, last := steps[..|steps| - 1], steps[|steps| - 1];
      RecordedCallCounts(s, init, p, m);
      ClockGoesOn(Run(s, init), last);
      if Run(s, steps).now < m.at + 60_000_000_000 {
        MemberStays(Run(s, init), last, p, m, m.at + 60_000_000_000);
      }
    }
  }

  lemma ClockGoesOn(s: State, step: Step)
    ensures s.now <= Apply(s, step).now
  {
    hide ZKey, FirstKey, DecisionFor, Put, Prolong, Evict, AddMember, ProlongSet, Members;
  }

  /** Recording puts the call on record, and prolonging a set in which it is still on
      record makes it count. */
  lemma RecordAndTouch(s: State, id: nat, salt: string, p: Pair, m: Member)
    requires id in s.calls && s.calls[id].pair == p
    ensures s.calls[id].phase.Counted? && m == Member(s.now, salt) ==>
              m in Members(Apply(s, Record(id, salt)).zsets, s.now, ZKey(p))
    ensures s.calls[id].phase.Recorded? && m in Members(s.zsets, s.now, ZKey(p)) && m.at <= s.now ==>
              LivesUntil(Apply(s, Touch(id)), p, m, m.at + 60_000_000_000)
  {
    hide ZKey, FirstKey;
  }

  // What the first-response key holds, told from the steps alone.

  datatype First = First(bytes: string, refreshed: int)

  /** The pair's last stored response and when its key was last stored, or prolonged
      while it was still alive. */
  function FirstAfter(s: State, steps: seq<Step>, p: Pair): Option<First>
    decreases |steps|
  {
    if |steps| == 0 then
      if FirstKey(p) in s.db then Some(First(s.db[FirstKey(p)].value, s.db[FirstKey(p)].expires - KEY_TTL)) else None
    else
      var init, step := steps[..|steps| - 1], steps[|steps| - 1];
      var before, now := FirstAfter(s, init, p), Run(s, init).now;
      if step == UnlinkFirst(p) then None
      else if Stores(step, p) then Some(First(step.bytes, now))
      else if step == TouchFirst(p) && before.Some? && now < before.value.refreshed + KEY_TTL then
        Some(before.value.(refreshed := now))
      else before
  }

  predicate Stores(step: Step, p: Pair)
  {
    step.StoreFirst? && step.pair == p && |step.bytes| > 0
  }

  /** Whatever else happens, the key holds the last stored response and lives for 70
      seconds after the last store or prolongation. */
  lemma {:induction false} FirstIsLastStored(s: State, steps: seq<Step>, p: Pair)
    ensures var db, first := Run(s, steps).db, FirstAfter(s, steps, p);
            if first.None? then FirstKey(p) !in db
            else FirstKey(p) in db && db[FirstKey(p)] == Entry(first.value.bytes, first.value.refreshed + KEY_TTL)
    decreases |steps|
  {
    hide Apply, FirstKey;
    if |steps| > 0 {
      FirstIsLastStored(s, steps[..|steps| - 1], p);
      FirstStep(Run(s, steps[..|steps| - 1]), steps[|steps| - 1], p);
    }
  }

  lemma FirstStep(s: State, step: Step, p: Pair)
    ensures var key, db := FirstKey(p), Apply(s, step).db;
            && (key in db <==> step != UnlinkFirst(p) && (key in s.db || Stores(step, p)))
            && (key in db ==> db[key] == if Stores(step, p) then Entry(step.bytes, s.now + KEY_TTL)
                                         else if step == TouchFirst(p) && s.now < s.db[key].expires then
                                           s.db[key].(expires := s.now + KEY_TTL)
                                         else s.db[key])
  {
    KeysApart();
    hide ZKey, FirstKey, Evict, AddMember, ProlongSet, Members, DecisionFor;
  }

  /** The bytes a live key holds after some steps were stored by one of them, no later
      one stored others or purged the key, and one of them stored or prolonged the key less than 70
      seconds ago. */
  ghost predicate LatestAndFresh(s: State, steps: seq<Step>, p: Pair, bytes: string)
  {
    exists j, r :: 0 <= j <= r < |steps| && StoredLast(steps, j, p, bytes) && RefreshedAt(s, steps, j, r, p)
  }

  predicate StoredLast(steps: seq<Step>, j: nat, p: Pair, bytes: string)
    requires j < |steps|
  {
    && steps[j] == StoreFirst(p, bytes) && |bytes| > 0
    && forall i :: j < i < |steps| ==> !Stores(steps[i], p) && steps[i] != UnlinkFirst(p)
  }

  predicate RefreshedAt(s: State, steps: seq<Step>, j: nat, r: nat, p: Pair)
    requires j <= r < |steps|
  {
    && (r == j || steps[r] == TouchFirst(p))
    && Run(s, steps).now < Run(s, steps[..r]).now + KEY_TTL
  }

  /** Where the remembered response and its last refresh come from. */
  lemma {:induction false} FirstComesFrom(s: State, steps: seq<Step>, p: Pair) returns (j: nat, r: nat)
    requires FirstKey(p) !in s.db && FirstAfter(s, steps, p).Some?
    ensures j <= r < |steps| && StoredLast(steps, j, p, FirstAfter(s, steps, p).value.bytes)
    ensures r == j || steps[r] == TouchFirst(p)
    ensures FirstAfter(s, steps, p).value.refreshed == Run(s, steps[..r]).now
    decreases |steps|
  {
    hide Apply, FirstKey;
    var last := |steps| - 1;
    var init := steps[..last];
    if Stores(steps[last], p) {
      j, r := last, last;
    } else {
      j, r := FirstComesFrom(s, init, p);
      assert init[..r] == steps[..r];
      if FirstAfter(s, steps, p) != FirstAfter(s, init, p) {
        r := last;
      }
    }
  }

  /** The decision, told from the steps before it: bytes are reused exactly from the third
      call on, without the kill switch, and while the last stored response is alive. */
  lemma ReuseIff(start: int, before: seq<Step>, id: nat, killSwitch: bool)
    requires var s := Run(Initial(start), before); id in s.calls && s.calls[id].phase.Prolonged?
    ensures var s := Run(Initial(start), before);
            var t, first := s.calls[id], FirstAfter(Initial(start), before, s.calls[id].pair);
            var verdict := DecisionFor(s, t, killSwitch);
            && (verdict.Reuse? <==> t.phase.seen >= 2 && !killSwitch && first.Some?
                                    && s.now < first.value.refreshed + KEY_TTL)
            && (verdict == KillSwitch <==> t.phase.seen >= 2 && killSwitch)
            && (verdict.Reuse? ==> verdict.bytes == first.value.bytes
                                   && LatestAndFresh(Initial(start), before, t.pair, verdict.bytes))
  {
    hide Run, FirstAfter, FirstKey, StoredLast;
    var s := Run(Initial(start), before);
    var p := s.calls[id].pair;
    var first := FirstAfter(Initial(start), before, p);
    FirstIsLastStored(Initial(start), before, p);
    if first.Some? {
      var j, r := FirstComesFrom(Initial(start), before, p);
      assert |first.value.bytes| > 0 by { StoresSome(before, j, p, first.value.bytes); }
      assert s.now < first.value.refreshed + KEY_TTL ==> RefreshedAt(Initial(start), before, j, r, p);
    }
  }

  lemma StoresSome(steps: seq<Step>, j: nat, p: Pair, bytes: string)
    requires j < |steps| && StoredLast(steps, j, p, bytes)
    ensures |bytes| > 0
  {
  }

  /** A decided call was decided by one step, on the state before it. */
  lemma {:induction false} DecidedOnce(start: int, steps: seq<Step>, id: nat) returns (k: nat)
    requires id in Run(Initial(start), steps).calls && Run(Initial(start), steps).calls[id].phase.Decided?
    ensures k < |steps| && steps[k].Decide? && steps[k].id == id
    ensures var s := Run(Initial(start), steps[..k]);
            && id in s.calls && s.calls[id].phase.Prolonged?
            && Run(Initial(start), steps).calls[id] ==
               Ticket(s.calls[id].pair, Decided(s.calls[id].phase.since, s.calls[id].phase.seen,
                                                DecisionFor(s, s.calls[id], steps[k].killSwitch)))
    decreases |steps|
  {
    hide Apply, DecisionFor;
    var last := |steps| - 1;
    var before := Run(Initial(start), steps[..last]);
    DecidedStep(before, steps[last], id);
    if id in before.calls && before.calls[id].phase.Decided? {
      k := DecidedOnce(start, steps[..last], id);
      assert steps[..last][..k] == steps[..k];
    } else {
      k := last;
    }
  }

  lemma DecidedStep(s: State, step: Step, id: nat)
    requires id in Apply(s, step).calls && Apply(s, step).calls[id].phase.Decided?
    ensures id in s.calls
    ensures if s.calls[id].phase.Decided? then Apply(s, step).calls[id] == s.calls[id]
            else
              && step.Decide? && step.id == id && s.calls[id].phase.Prolonged?
              && Apply(s, step).calls[id] ==
                 Ticket(s.calls[id].pair, Decided(s.calls[id].phase.since, s.calls[id].phase.seen,
                                                  DecisionFor(s, s.calls[id], step.killSwitch)))
  {
    hide Evict, AddMember, ProlongSet, Members, Put, Prolong, ZKey, FirstKey, DecisionFor;
  }

  /** The call was decided by a step at which the pair's key held these bytes: those of
      the last store, refreshed less than 70 seconds before. */
  ghost predicate ReusedFresh(start: int, steps: seq<Step>, id: nat, p: Pair, bytes: string)
  {
    exists k :: 0 <= k < |steps| && steps[k] == Decide(id, false)
      && LatestAndFresh(Initial(start), steps[..k], p, bytes)
  }

  /** However the commands of many calls interleave, a call is short-circuited only if
      at least two other calls on its pair were recorded less than 60 seconds before it
      began, or since; and the bytes it is served were the pair's last stored ones when
      it was decided, stored or prolonged less than 70 seconds before. */
  lemma ShortCircuitNeedsTwoOthers(start: int, steps: seq<Step>, id: nat)
    requires var s := Run(Initial(start), steps);
             id in s.calls && s.calls[id].phase.Decided? && s.calls[id].phase.verdict != Pass
    ensures var s := Run(Initial(start), steps);
            var t := s.calls[id];
            && |Others(s, id, t.pair, t.phase.since)| >= 2
            && (t.phase.verdict.Reuse? ==> ReusedFresh(start, steps, id, t.pair, t.phase.verdict.bytes))
  {
    hide Run, Apply, Others, LatestAndFresh, FirstAfter;
    RunKeeps(Initial(start), steps);
    DecidedIsSound(Run(Initial(start), steps), id);
    var k := DecidedOnce(start, steps, id);
    ReuseIff(start, steps[..k], id, steps[k].killSwitch);
  }

  // ----- the hook, command by command --------------------------------------

  ghost predicate Mirrors(s: State, rdb: Server)
    reads rdb
  {
    s.now == rdb.now && s.db == rdb.db && s.zsets == rdb.zsets
  }

  predicate Concerns(step: Step, id: nat)
  {
    match step
    case Begin(j, _) => j == id
    case Count(j) => j == id
    case Record(j, _) => j == id
    case Touch(j) => j == id
    case Decide(j, _) => j == id
    case _ => false
  }

  lemma {:induction false} OthersLeaveTicket(s: State, steps: seq<Step>, id: nat)
    requires forall k :: 0 <= k < |steps| ==> !Concerns(steps[k], id)
    ensures id in Run(s, steps).calls <==> id in s.calls
    ensures id in s.calls ==> Run(s, steps).calls[id] == s.calls[id]
    decreases |steps|
  {
    hide Apply, Concerns;
    if |steps| > 0 {
      OthersLeaveTicket(s, steps[..|steps| - 1], id);
      OtherStep(Run(s, steps[..|steps| - 1]), steps[|steps| - 1], id);
    }
  }

  lemma OtherStep(s: State, step: Step, id: nat)
    requires !Concerns(step, id)
    ensures id in Apply(s, step).calls <==> id in s.calls
    ensures id in s.calls ==> Apply(s, step).calls[id] == s.calls[id]
  {
    hide Evict, AddMember, ProlongSet, Members, Put, Prolong, ZKey, FirstKey, DecisionFor;
  }

  lemma {:induction false} RunAppend(s: State, a: seq<Step>, b: seq<Step>)
    ensures Run(s, a + b) == Run(Run(s, a), b)
    decreases |b|
  {
    hide Apply;
    if |b| == 0 {
      assert a + b == a;
    } else {
      assert (a + b)[..|a + b| - 1] == a + b[..|b| - 1];
      RunAppend(s, a, b[..|b| - 1]);
    }
  }

  /** Whatever other requests do to the shared server before our next command. */
  method Meanwhile(rdb: Server, steps: seq<Step>, id: nat, s: State, ghost origin: State, ghost did: seq<Step>)
      returns (t: State, ghost more: seq<Step>)
    requires Mirrors(s, rdb) && id in s.calls && s == Run(origin, did)
    requires forall k :: 0 <= k < |steps| ==> !Concerns(steps[k], id)
    modifies rdb
    ensures t == Run(origin, more) && more == did + steps && Mirrors(t, rdb)
    ensures id in t.calls && t.calls[id] == s.calls[id]
  {
    t := Run(s, steps);
    more := did + steps;
    RunAppend(origin, did, steps);
    OthersLeaveTicket(s, steps, id);
    rdb.now, rdb.db, rdb.zsets := t.now, t.db, t.zsets;
  }

  /** The world after one command of our own. */
  method Own(s: State, step: Step, ghost origin: State, ghost did: seq<Step>) returns (t: State, ghost more: seq<Step>)
    requires s == Run(origin, did)
    ensures t == Apply(s, step) && more == did + [step] && t == Run(origin, more)
  {
    t := Apply(s, step);
    more := did + [step];
    assert more[..|more| - 1] == did;
  }

  /** Evict and count, with what others do after each. */
  method CountAmongOthers(rdb: Server, id: nat, p: Pair, others: nat -> seq<Step>, s: State)
      returns (count: nat, t: State, ghost did: seq<Step>)
    requires Mirrors(s, rdb) && id !in s.calls
    requires forall i: nat, k :: 0 <= k < |others(i)| ==> !Concerns(others(i)[k], id)
    modifies rdb
    ensures Mirrors(t, rdb) && t == Run(s, did) && did == [Begin(id, p)] + others(0) + [Count(id)] + others(1)
    ensures id in t.calls && t.calls[id] == Ticket(p, Counted(old(rdb.now) - WINDOW, count))
    ensures count == SeenBy(s, id, p, others)
  {
    assert Run(s, []) == s;
    hide Members, Evict, Run, Concerns, ZKey;
    var zKey := ZKey(p);
    rdb.ZRemRangeByScore(zKey, rdb.now - WINDOW);
    t, did := Own(s, Begin(id, p), s, []);
    assert did == [Begin(id, p)];
    t, did := Meanwhile(rdb, others(0), id, t, s, did);
    count := rdb.ZCard(zKey);
    t, did := Own(t, Count(id), s, did);
    t, did := Meanwhile(rdb, others(1), id, t, s, did);
  }

  /** Record and prolong, with what others do after each. */
  method RecordAmongOthers(rdb: Server, id: nat, others: nat -> seq<Step>, s: State,
                           ghost origin: State, ghost did: seq<Step>)
      returns (t: State, ghost more: seq<Step>)
    requires Mirrors(s, rdb) && id in s.calls && s.calls[id].phase.Counted? && s == Run(origin, did)
    requires forall i: nat, k :: 0 <= k < |others(i)| ==> !Concerns(others(i)[k], id)
    modifies rdb
    ensures Mirrors(t, rdb) && t == Run(origin, more)
    ensures more == did + [Record(id, "")] + others(2) + [Touch(id)] + others(3)
    ensures id in t.calls && t.calls[id] ==
                              Ticket(s.calls[id].pair, Prolonged(s.calls[id].phase.since, s.calls[id].phase.seen))
  {
    hide AddMember, ProlongSet, Run, Concerns, ZKey;
    var zKey := ZKey(s.calls[id].pair);
    rdb.ZAdd(zKey, Member(rdb.now, ""));
    t, more := Own(s, Record(id, ""), origin, did);
    t, more := Meanwhile(rdb, others(2), id, t, origin, more);
    rdb.ExpireSet(zKey, KEY_TTL);
    t, more := Own(t, Touch(id), origin, more);
    t, more := Meanwhile(rdb, others(3), id, t, origin, more);
  }

  /** The steps up to the decision, with `others(i)` in the i-th gap. */
  function Asking(id: nat, p: Pair, others: nat -> seq<Step>): seq<Step>
  {
    [Begin(id, p)] + others(0) + [Count(id)] + others(1) + [Record(id, "")] + others(2) + [Touch(id)] + others(3)
  }

  /** Look up the first response from the third call on, and prolong it when it is served. */
  method DecideAmongOthers(rdb: Server, id: nat, count: nat, killSwitch: bool, others: nat -> seq<Step>, s: State,
                           ghost origin: State, ghost did: seq<Step>)
      returns (verdict: Verdict, t: State, ghost more: seq<Step>)
    requires Mirrors(s, rdb) && id in s.calls && s == Run(origin, did)
    requires s.calls[id].phase.Prolonged? && s.calls[id].phase.seen == count
    requires forall i: nat, k :: 0 <= k < |others(i)| ==> !Concerns(others(i)[k], id)
    modifies rdb
    ensures verdict == DecisionFor(s, s.calls[id], killSwitch)
    ensures Mirrors(t, rdb) && t == Run(origin, more)
    ensures more == did + [Decide(id, killSwitch)]
                    + if verdict.Reuse? then others(4) + [TouchFirst(s.calls[id].pair)] else []
    ensures id in t.calls
    ensures t.calls[id] == Ticket(s.calls[id].pair, Decided(s.calls[id].phase.since, s.calls[id].phase.seen, verdict))
  {
    hide Concerns, FirstKey, ZKey, Get, Prolong, Run;
    var firstKey := FirstKey(s.calls[id].pair);
    var loopCount := count + 1;
    verdict := Pass;
    if loopCount >= THRESHOLD {
      if killSwitch {
        verdict := KillSwitch;
      } else {
        var cached := rdb.Fetch(firstKey);
        if cached.Some? && |cached.value| > 0 {
          verdict := Reuse(cached.value);
        }
      }
    }
    t, more := Own(s, Decide(id, killSwitch), origin, did);
    if verdict.Reuse? {
      t, more := Meanwhile(rdb, others(4), id, t, origin, more);
      rdb.Expire(firstKey, KEY_TTL);
      t, more := Own(t, TouchFirst(s.calls[id].pair), origin, more);
    }
  }

  /** The hook: its commands on the shared server, with `others(i)` in the i-th gap. It
      runs the step machine, so it answers only when at least two other calls are on
      record, and then with the kill-switch hint or with the bytes last stored for the
      pair, refreshed less than 70 seconds before. */
  method BeforeRequest(rdb: Server, id: nat, p: Pair, killSwitch: bool, others: nat -> seq<Step>, s: State)
      returns (verdict: Verdict, t: State, ghost did: seq<Step>)
    requires Mirrors(s, rdb) && Inv(s) && id !in s.calls
    requires forall i: nat, k :: 0 <= k < |others(i)| ==> !Concerns(others(i)[k], id)
    modifies rdb
    ensures Mirrors(t, rdb) && t == Run(s, did) && Inv(t)
    ensures did == Asking(id, p, others) + [Decide(id, killSwitch)]
                   + if verdict.Reuse? then others(4) + [TouchFirst(p)] else []
    ensures id in t.calls && t.calls[id].pair == p && t.calls[id].phase.Decided? && t.calls[id].phase.verdict == verdict
    ensures verdict != Pass ==> |Others(t, id, p, old(rdb.now) - WINDOW)| >= 2
    ensures verdict.Reuse? ==> Holds(s, Asking(id, p, others), p, verdict.bytes)
    ensures var seen := SeenBy(s, id, p, others);
            && (verdict == KillSwitch <==> seen >= 2 && killSwitch)
            && (verdict.Reuse? <==>
                  seen >= 2 && !killSwitch && exists bytes :: Holds(s, Asking(id, p, others), p, bytes))
  {
    hide *;
    var count;
    count, t, did := CountAmongOthers(rdb, id, p, others, s);
    t, did := RecordAmongOthers(rdb, id, others, t, s, did);
    assert did == Asking(id, p, others) by { AskingIs(id, p, others); }
    ghost var asked := t;
    verdict, t, did := DecideAmongOthers(rdb, id, count, killSwitch, others, t, s, did);
    ReusedIsHeld(s, Asking(id, p, others), asked, id, killSwitch);
    RunKeeps(s, did);
    DecidedIsSound(t, id);
  }

  lemma AskingIs(id: nat, p: Pair, others: nat -> seq<Step>)
    ensures Asking(id, p, others) ==
            [Begin(id, p)] + others(0) + [Count(id)] + others(1) + [Record(id, "")] + others(2)
              + [Touch(id)] + others(3)
  {
  }

  /** How many members of the pair's set are live when the hook counts. */
  function SeenBy(s: State, id: nat, p: Pair, others: nat -> seq<Step>): nat
  {
    var counted := Run(s, [Begin(id, p)] + others(0));
    |Members(counted.zsets, counted.now, ZKey(p))|
  }

  /** After these steps the pair's key is alive with the bytes last stored under it. */
  ghost predicate Holds(s: State, steps: seq<Step>, p: Pair, bytes: string)
  {
    var first := FirstAfter(s, steps, p);
    && |bytes| > 0 && first.Some? && first.value.bytes == bytes
    && Run(s, steps).now < first.value.refreshed + KEY_TTL
  }

  lemma ReusedIsHeld(origin: State, did: seq<Step>, s: State, id: nat, killSwitch: bool)
    requires s == Run(origin, did) && id in s.calls && s.calls[id].phase.Prolonged?
    ensures var t, verdict := s.calls[id], DecisionFor(s, s.calls[id], killSwitch);
            && (verdict.Reuse? ==> Holds(origin, did, t.pair, verdict.bytes))
            && (verdict == KillSwitch <==> t.phase.seen >= 2 && killSwitch)
            && (verdict.Reuse? <==>
                  t.phase.seen >= 2 && !killSwitch && exists bytes :: Holds(origin, did, t.pair, bytes))
  {
    hide Run, FirstKey, FirstAfter;
    FirstIsLastStored(origin, did, s.calls[id].pair);
  }

  lemma DecidedIsSound(s: State, id: nat)
    requires Inv(s) && id in s.calls && s.calls[id].phase.Decided?
    ensures var t := s.calls[id];
            t.phase.verdict != Pass ==> |Others(s, id, t.pair, t.phase.since)| >= 2
  {
    assert TicketOk(s, id);
  }

  /** The proxy's own path: any non-empty response becomes the first response. */
  method StoreLoopFirstResponse(rdb: Server, p: Pair, response: string, s: State) returns (t: State)
    requires Mirrors(s, rdb)
    modifies rdb`db
    ensures t == Apply(s, StoreFirst(p, response)) && Mirrors(t, rdb)
    ensures |response| > 0 ==> Get(rdb.db, rdb.now, FirstKey(p)) == Some(response)
  {
    hide ZKey;
    t := Apply(s, StoreFirst(p, response));
    if |response| == 0 {
      return;
    }
    rdb.Set(FirstKey(p), response, KEY_TTL);
  }

  /** The hook's path stores only while at most one call is on record, so a later call
      of the window never replaces the first one's response. */
  method AfterResponse(rdb: Server, p: Pair, response: string, s: State) returns (t: State)
    requires Mirrors(s, rdb)
    modifies rdb`db
    ensures Mirrors(t, rdb)
    ensures t == if |Members(s.zsets, s.now, ZKey(p))| <= 1 then Apply(s, StoreFirst(p, response)) else s
  {
    hide ZKey, Members;
    t := s;
    var count := rdb.ZCard(ZKey(p));
    if |response| == 0 {
      return;
    }
    if count > 1 {
      return;
    }
    t := StoreLoopFirstResponse(rdb, p, response, s);
  }
}
