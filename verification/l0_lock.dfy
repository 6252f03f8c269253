// The in-flight lock: identical concurrent requests share one upstream call through a
// 30-second lease and a 30-second published response. Every Redis command is one step,
// and the steps of any number of requests interleave freely.
module L0Lock {
  import opened Text
  import opened Redis

  const TTL := 30_000
  const POLL := 50

  // ----- what happened -----------------------------------------------------

  datatype Event =
    | Granted(pair: Pair, worker: string, at: int)
    | Denied(pair: Pair, worker: string, at: int)
    | Cleared(pair: Pair, worker: string, at: int)
    | Published(pair: Pair, bytes: string, at: int)
    | Served(pair: Pair, bytes: string, at: int)
    | Missed(pair: Pair, at: int)

  /** Events, newest outermost. */
  datatype Log = Start | Then(earlier: Log, event: Event)

  /** When the worker was last granted the pair, unless it gave the pair back since. */
  function LeaseStart(log: Log, p: Pair, w: string): Option<int>
  {
    match log
    case Start => None
    case Then(earlier, e) =>
      if e.Granted? && e.pair == p && e.worker == w then Some(e.at)
      else if e.Cleared? && e.pair == p && e.worker == w then None
      else LeaseStart(earlier, p, w)
  }

  predicate Holds(log: Log, p: Pair, w: string, now: int)
  {
    var start := LeaseStart(log, p, w);
    start.Some? && now < start.value + 30_000
  }

  datatype Publication = Publication(bytes: string, at: int)

  function LastPublished(log: Log, p: Pair): Option<Publication>
  {
    match log
    case Start => None
    case Then(earlier, e) =>
      if e.Published? && e.pair == p then Some(Publication(e.bytes, e.at)) else LastPublished(earlier, p)
  }

  /** What a lock with leases promises, with no Redis in sight: a request is granted a
      pair exactly when nobody holds it, and a waiter is served exactly the bytes last
      published for its pair, exactly when those are less than 30 seconds old. */
  ghost predicate Lawful(log: Log)
  {
    match log
    case Start => true
    case Then(earlier, e) =>
      && Lawful(earlier)
      && match e
         case Granted(p, w, at) => forall v :: !Holds(earlier, p, v, at)
         case Denied(p, w, at) => exists v :: Holds(earlier, p, v, at)
         case Cleared(p, w, at) => true
         case Published(p, bytes, at) => |bytes| > 0
         case Served(p, bytes, at) =>
           var last := LastPublished(earlier, p);
           last.Some? && last.value.bytes == bytes && last.value.at <= at < last.value.at + 30_000
         case Missed(p, at) =>
           var last := LastPublished(earlier, p);
           last.None? || last.value.at + 30_000 <= at
  }

  // ----- the protocol ------------------------------------------------------

  datatype Step =
    | Tick(ms: nat)
    | Acquire(pair: Pair, worker: string)
    | ClearLock(pair: Pair, worker: string)
    | Publish(pair: Pair, bytes: string)
    | Poll(pair: Pair)

  datatype State = State(now: int, db: Keyspace, log: Log)

  function LockKey(p: Pair): string
  {
    KeyOf("synapse:l0:lock:", p)
  }

  function RespKey(p: Pair): string
  {
    KeyOf("synapse:l0:resp:", p)
  }

  /** One Redis command of one request. */
  function Apply(s: State, step: Step): State
  {
    match step
    case Tick(ms) => s.(now := s.now + ms)
    case Acquire(p, w) =>
      var e := if Get(s.db, s.now, LockKey(p)).None? then Granted(p, w, s.now) else Denied(p, w, s.now);
      State(s.now, PutIfAbsent(s.db, s.now, LockKey(p), w, TTL), Then(s.log, e))
    case ClearLock(p, w) =>
      State(s.now, RemoveIfEquals(s.db, s.now, LockKey(p), w), Then(s.log, Cleared(p, w, s.now)))
    case Publish(p, bytes) =>
      if |bytes| == 0 then s
      else State(s.now, Put(s.db, s.now, RespKey(p), bytes, TTL), Then(s.log, Published(p, bytes, s.now)))
    case Poll(p) =>
      var found := Get(s.db, s.now, RespKey(p));
      var e := if found.Some? && |found.value| > 0 then Served(p, found.value, s.now) else Missed(p, s.now);
      s.(log := Then(s.log, e))
  }

  function Run(s: State, steps: seq<Step>): State
    decreases |steps|
  {
    if |steps| == 0 then s else Apply(Run(s, steps[..|steps| - 1]), steps[|steps| - 1])
  }

  lemma {:induction false} RunAppend(s: State, a: seq<Step>, b: seq<Step>)
    ensures Run(s, a + b) == Run(Run(s, a), b)
    decreases |b|
  {
    if |b| == 0 {
      assert a + b == a;
    } else {
      assert (a + b)[..|a + b| - 1] == a + b[..|b| - 1];
      RunAppend(s, a, b[..|b| - 1]);
    }
  }

  // ----- Redis keeps the promise -------------------------------------------

  /** The lock entry is the lease in the log, and no other worker has one. */
  ghost predicate LocksMatch(s: State)
  {
    && (forall p: Pair, w :: Holds(s.log, p, w, s.now) ==>
          LockKey(p) in s.db && s.db[LockKey(p)] == Entry(w, LeaseStart(s.log, p, w).value + TTL))
    && (forall p: Pair :: LockKey(p) in s.db && s.now < s.db[LockKey(p)].expires ==>
          LeaseStart(s.log, p, s.db[LockKey(p)].value) == Some(s.db[LockKey(p)].expires - TTL))
  }

  /** The response entry is the last publication in the log. */
  ghost predicate ResponsesMatch(s: State)
  {
    forall p: Pair ::
      match LastPublished(s.log, p)
      case None => RespKey(p) !in s.db
      case Some(last) =>
        && RespKey(p) in s.db && s.db[RespKey(p)] == Entry(last.bytes, last.at + TTL)
        && |last.bytes| > 0 && last.at <= s.now
  }

  ghost predicate Inv(s: State)
  {
    Lawful(s.log) && LocksMatch(s) && ResponsesMatch(s)
  }

  lemma KeysApart()
    ensures forall p: Pair, q: Pair :: LockKey(p) == LockKey(q) ==> p == q
    ensures forall p: Pair, q: Pair :: RespKey(p) == RespKey(q) ==> p == q
    ensures forall p: Pair, q: Pair :: LockKey(p) != RespKey(q)
  {
    forall p: Pair, q: Pair | LockKey(p) == LockKey(q)
      ensures p == q
    {
      KeyIsInjective("synapse:l0:lock:", p, q);
    }
    forall p: Pair, q: Pair | RespKey(p) == RespKey(q)
      ensures p == q
    {
      KeyIsInjective("synapse:l0:resp:", p, q);
    }
    var one, other := "synapse:l0:lock:", "synapse:l0:resp:";
    assert one[11] != other[11];
    forall p: Pair, q: Pair
      ensures LockKey(p) != RespKey(q)
    {
      PrefixesKeepApart(one, other, p, q);
    }
  }

  lemma AcquireKeeps(s: State, p: Pair, w: string)
    requires Inv(s)
    ensures Inv(Apply(s, Acquire(p, w)))
  {
    hide LockKey, RespKey;
    KeysApart();
    var t := Apply(s, Acquire(p, w));
    if Get(s.db, s.now, LockKey(p)).None? {
      forall v
        ensures !Holds(s.log, p, v, s.now)
      {
      }
    } else {
      assert Holds(s.log, p, s.db[LockKey(p)].value, s.now);
    }
    forall q: Pair, v
      ensures LeaseStart(t.log, q, v) ==
              if t.log.event.Granted? && q == p && v == w then Some(s.now) else LeaseStart(s.log, q, v)
    {
    }
    forall q: Pair
      ensures LastPublished(t.log, q) == LastPublished(s.log, q)
    {
    }
  }

  lemma ClearLockKeeps(s: State, p: Pair, w: string)
    requires Inv(s)
    ensures Inv(Apply(s, ClearLock(p, w)))
  {
    hide LockKey, RespKey;
    KeysApart();
    var t := Apply(s, ClearLock(p, w));
    forall q: Pair, v
      ensures LeaseStart(t.log, q, v) == if q == p && v == w then None else LeaseStart(s.log, q, v)
    {
    }
    forall q: Pair
      ensures LastPublished(t.log, q) == LastPublished(s.log, q)
    {
    }
  }

  lemma PublishKeeps(s: State, p: Pair, bytes: string)
    requires Inv(s)
    ensures Inv(Apply(s, Publish(p, bytes)))
  {
    hide LockKey, RespKey;
    KeysApart();
    if |bytes| > 0 {
      var t := Apply(s, Publish(p, bytes));
      forall q: Pair, v
        ensures LeaseStart(t.log, q, v) == LeaseStart(s.log, q, v)
      {
      }
      forall q: Pair
        ensures LastPublished(t.log, q) == if q == p then Some(Publication(bytes, s.now)) else LastPublished(s.log, q)
      {
      }
    }
  }

  lemma PollKeeps(s: State, p: Pair)
    requires Inv(s)
    ensures Inv(Apply(s, Poll(p)))
  {
    hide LockKey, RespKey;
    KeysApart();
    var t := Apply(s, Poll(p));
    forall q: Pair, v
      ensures LeaseStart(t.log, q, v) == LeaseStart(s.log, q, v)
    {
    }
    forall q: Pair
      ensures LastPublished(t.log, q) == LastPublished(s.log, q)
    {
    }
  }

  lemma StepKeeps(s: State, step: Step)
    requires Inv(s)
    ensures Inv(Apply(s, step))
  {
    match step
    case Tick(ms) =>
    case Acquire(p, w) => AcquireKeeps(s, p, w);
    case ClearLock(p, w) => ClearLockKeeps(s, p, w);
    case Publish(p, bytes) => PublishKeeps(s, p, bytes);
    case Poll(p) => PollKeeps(s, p);
  }

  lemma {:induction false} RunKeeps(s: State, steps: seq<Step>)
    requires Inv(s)
    ensures Inv(Run(s, steps))
    decreases |steps|
  {
    hide Inv;
    if |steps| > 0 {
      RunKeeps(s, steps[..|steps| - 1]);
      StepKeeps(Run(s, steps[..|steps| - 1]), steps[|steps| - 1]);
    }
  }

  ghost predicate Reachable(s: State)
  {
    exists start: int, steps: seq<Step> :: s == Run(State(start, map[], Start), steps)
  }

  /** Every interleaving of acquires, polls, lock clearings, publications and passing
      time produces a lawful log. */
  lemma EveryRunIsLawful(s: State)
    requires Reachable(s)
    ensures Lawful(s.log) && Inv(s)
  {
    var start: int, steps: seq<Step> :| s == Run(State(start, map[], Start), steps);
    RunKeeps(State(start, map[], Start), steps);
  }

  /** At most one worker holds an unexpired lease on a pair. */
  lemma AtMostOneHolder(s: State, p: Pair, v: string, w: string)
    requires Reachable(s) && Holds(s.log, p, v, s.now) && Holds(s.log, p, w, s.now)
    ensures v == w
  {
    EveryRunIsLawful(s);
  }

  // ----- how a lease ends --------------------------------------------------

  lemma HeldAfterStep(s: State, step: Step, p: Pair, w: string)
    requires Inv(s) && Holds(s.log, p, w, s.now) && step != ClearLock(p, w)
    ensures LeaseStart(Apply(s, step).log, p, w) == LeaseStart(s.log, p, w)
  {
  }

  lemma {:induction false} TimeOnlyGrows(s: State, steps: seq<Step>)
    ensures s.now <= Run(s, steps).now
    decreases |steps|
  {
    if |steps| > 0 {
      TimeOnlyGrows(s, steps[..|steps| - 1]);
    }
  }

  /** Whatever the others do, late releases of lapsed workers included, a lease lasts
      its full 30 seconds unless its own holder gives it back. */
  lemma {:induction false} LeaseLastsUntilOwnRelease(s: State, steps: seq<Step>, p: Pair, w: string)
    requires Inv(s) && Holds(s.log, p, w, s.now) && ClearLock(p, w) !in steps
    ensures Run(s, steps).now < LeaseStart(s.log, p, w).value + TTL ==>
              Holds(Run(s, steps).log, p, w, Run(s, steps).now)
    ensures Run(s, steps).now < LeaseStart(s.log, p, w).value + TTL ==>
              LeaseStart(Run(s, steps).log, p, w) == LeaseStart(s.log, p, w)
    decreases |steps|
  {
    hide Inv, Lawful;
    if |steps| > 0 {
      var init, last := steps[..|steps| - 1], steps[|steps| - 1];
      assert last in steps && forall x :: x in init ==> x in steps;
      LeaseLastsUntilOwnRelease(s, init, p, w);
      TimeOnlyGrows(Run(s, init), [last]);
      assert [last][..0] == [];
      RunKeeps(s, init);
      if Run(s, steps).now < LeaseStart(s.log, p, w).value + TTL {
        HeldAfterStep(Run(s, init), last, p, w);
      }
    }
  }

  // ----- late releases -----------------------------------------------------

  predicate WasGranted(log: Log, p: Pair, w: string, at: int)
  {
    match log
    case Start => false
    case Then(earlier, e) => e == Granted(p, w, at) || WasGranted(earlier, p, w, at)
  }

  /** Worker ids are drawn afresh for every acquire. */
  predicate DistinctWorkers(steps: seq<Step>)
  {
    forall i, j :: 0 <= i < j < |steps| && steps[i].Acquire? && steps[j].Acquire? ==> steps[i].worker != steps[j].worker
  }

  lemma {:induction false} GrantsComeFromAcquires(s: State, steps: seq<Step>, p: Pair, w: string, at: int)
    requires s.log == Start && WasGranted(Run(s, steps).log, p, w, at)
    ensures exists i :: 0 <= i < |steps| && steps[i].Acquire? && steps[i].worker == w
    decreases |steps|
  {
    if |steps| > 0 {
      var init, last := steps[..|steps| - 1], steps[|steps| - 1];
      if WasGranted(Run(s, init).log, p, w, at) {
        GrantsComeFromAcquires(s, init, p, w, at);
        var i :| 0 <= i < |init| && init[i].Acquire? && init[i].worker == w;
        assert steps[i] == init[i];
      } else {
        assert last.Acquire? && last.worker == w;
      }
    }
  }

  lemma {:induction false} GrantedOnce(s: State, steps: seq<Step>, p: Pair, at: int, q: Pair, again: int, w: string)
    requires s.log == Start && DistinctWorkers(steps)
    requires WasGranted(Run(s, steps).log, p, w, at) && WasGranted(Run(s, steps).log, q, w, again)
    ensures p == q && at == again
    decreases |steps|
  {
    if |steps| > 0 {
      var init, last := steps[..|steps| - 1], steps[|steps| - 1];
      var before := Run(s, init);
      if WasGranted(before.log, p, w, at) {
        GrantsComeFromAcquires(s, init, p, w, at);
      }
      if WasGranted(before.log, q, w, again) {
        GrantsComeFromAcquires(s, init, q, w, again);
      }
      if WasGranted(before.log, p, w, at) && WasGranted(before.log, q, w, again) {
        GrantedOnce(s, init, p, at, q, again, w);
      }
    }
  }

  lemma {:induction false} LeaseWasGranted(log: Log, p: Pair, w: string)
    requires LeaseStart(log, p, w).Some?
    ensures WasGranted(log, p, w, LeaseStart(log, p, w).value)
  {
    if log.Then? && !WasGranted(log, p, w, LeaseStart(log, p, w).value) {
      LeaseWasGranted(log.earlier, p, w);
    }
  }

  /** With distinct worker ids, a worker whose lease lapsed deletes nothing by releasing
      late, on any pair: in particular not its successor's lock. */
  lemma LateReleaseIsHarmless(s: State, steps: seq<Step>, p: Pair, w: string, at: int, q: Pair)
    requires s.log == Start && s.db == map[] && DistinctWorkers(steps)
    requires WasGranted(Run(s, steps).log, p, w, at) && at + TTL <= Run(s, steps).now
    ensures Apply(Run(s, steps), ClearLock(q, w)).db == Run(s, steps).db
  {
    var t := Run(s, steps);
    RunKeeps(s, steps);
    if LeaseStart(t.log, q, w).Some? {
      LeaseWasGranted(t.log, q, w);
      GrantedOnce(s, steps, p, at, q, LeaseStart(t.log, q, w).value, w);
    }
    assert !Holds(t.log, q, w, t.now);
  }

  // ----- the three calls ---------------------------------------------------

  ghost predicate Mirrors(s: State, rdb: Server)
    reads rdb
  {
    s.now == rdb.now && s.db == rdb.db
  }

  method L0Acquire(rdb: Server, p: Pair, workerID: string, ghost s: State) returns (ok: bool, ghost t: State)
    requires Mirrors(s, rdb)
    modifies rdb
    ensures t == Apply(s, Acquire(p, workerID)) && Mirrors(t, rdb)
    ensures Inv(s) ==> (ok <==> forall v :: !Holds(s.log, p, v, s.now))
    ensures Inv(s) && ok ==> Holds(t.log, p, workerID, t.now)
  {
    ok := rdb.SetNX("synapse:l0:lock:" + p.vk + ":" + p.hash, workerID, TTL);
    t := Apply(s, Acquire(p, workerID));
    if Inv(s) {
      AcquireKeeps(s, p, workerID);
    }
  }

  /** One command of some other request, or the passing of time. */
  method Perform(rdb: Server, step: Step, ghost s: State) returns (ghost t: State)
    requires Mirrors(s, rdb)
    modifies rdb
    ensures t == Apply(s, step) && Mirrors(t, rdb)
  {
    match step {
      case Tick(ms) => rdb.Elapse(ms);
      case Acquire(p, w) => var _ := rdb.SetNX(LockKey(p), w, TTL);
      case ClearLock(p, w) => rdb.DelIfEquals(LockKey(p), w);
      case Publish(p, bytes) => if |bytes| > 0 { rdb.Set(RespKey(p), bytes, TTL); }
      case Poll(p) =>
    }
    t := Apply(s, step);
  }

  method PerformAll(rdb: Server, steps: seq<Step>, ghost s: State) returns (ghost t: State)
    requires Mirrors(s, rdb)
    modifies rdb
    ensures t == Run(s, steps) && Mirrors(t, rdb)
  {
    t := s;
    for i := 0 to |steps|
      invariant t == Run(s, steps[..i]) && Mirrors(t, rdb)
    {
      assert steps[..i + 1][..i] == steps[..i];
      t := Perform(rdb, steps[i], t);
    }
    assert steps[..|steps|] == steps;
  }

  /** Two commands, with whatever others do in between: clear the lock if it is still
      ours, publish a non-empty response whoever we are. */
  method L0Release(rdb: Server, p: Pair, workerID: string, response: string, others: seq<Step>, ghost s: State)
      returns (ghost t: State)
    requires Mirrors(s, rdb)
    modifies rdb
    ensures t == Run(s, [ClearLock(p, workerID)] + others + [Publish(p, response)]) && Mirrors(t, rdb)
    ensures |response| > 0 ==> LastPublished(t.log, p) == Some(Publication(response, t.now))
  {
    t := Perform(rdb, ClearLock(p, workerID), s);
    ghost var cleared := t;
    t := PerformAll(rdb, others, t);
    if |response| > 0 {
      rdb.Set("synapse:l0:resp:" + p.vk + ":" + p.hash, response, TTL);
    }
    t := Apply(t, Publish(p, response));
    RunOne(s, ClearLock(p, workerID));
    RunAppend(s, [ClearLock(p, workerID)], others);
    RunOne(Run(s, [ClearLock(p, workerID)] + others), Publish(p, response));
    RunAppend(s, [ClearLock(p, workerID)] + others, [Publish(p, response)]);
  }

  lemma RunOne(s: State, step: Step)
    ensures Run(s, [step]) == Apply(s, step)
  {
    assert [step][..0] == [];
    assert Run(s, []) == s;
  }

  /** The comment on the call promises a no-op for a caller that never acquired.  The
      lock entries are untouched exactly when the caller has no live lease, but the
      response is published all the same: only an empty one publishes nothing. */
  lemma ReleaseWithoutLease(s: State, p: Pair, w: string, response: string)
    requires Inv(s)
    ensures Apply(s, ClearLock(p, w)).db == s.db <==> !Holds(s.log, p, w, s.now)
    ensures var t := Apply(Apply(s, ClearLock(p, w)), Publish(p, response));
            Get(t.db, t.now, RespKey(p)) == if |response| > 0 then Some(response) else Get(s.db, s.now, RespKey(p))
  {
    hide Lawful, LockKey, RespKey;
    KeysApart();
    var t := Apply(s, ClearLock(p, w));
    if Holds(s.log, p, w, s.now) {
      assert LockKey(p) !in t.db;
    }
  }

  datatype WaitResult = Got(bytes: string) | TimedOut | Cancelled

  /** What a poll of a lawful state may answer. */
  ghost predicate Answers(t: State, p: Pair, found: Option<string>)
  {
    var last := LastPublished(t.log, p);
    if found.Some? && |found.value| > 0 then
      last.Some? && last.value.bytes == found.value && last.value.at <= t.now < last.value.at + TTL
    else last.None? || last.value.at + TTL <= t.now
  }

  /** One poll of the response key. */
  method PollOnce(rdb: Server, p: Pair, ghost s: State, ghost did: seq<Step>, ghost u: State)
      returns (found: Option<string>, ghost t: State, ghost more: seq<Step>)
    requires Mirrors(u, rdb) && Inv(u) && u == Run(s, did)
    ensures t == Run(s, more) && Mirrors(t, rdb) && Inv(t) && t.now == u.now
    ensures Answers(t, p, found)
  {
    found := rdb.Fetch("synapse:l0:resp:" + p.vk + ":" + p.hash);
    t, more := Continue(s, did, u, Poll(p));
    PollAnswers(u, p);
  }

  lemma PollAnswers(u: State, p: Pair)
    requires Inv(u)
    ensures Answers(Apply(u, Poll(p)), p, Get(u.db, u.now, RespKey(p)))
  {
    hide RespKey;
  }

  /** One pause: at least 50 milliseconds, and whatever others do meanwhile. */
  method Pause(rdb: Server, others: seq<Step>, ghost s: State, ghost did: seq<Step>, ghost u: State)
      returns (ghost t: State, ghost more: seq<Step>)
    requires Mirrors(u, rdb) && Inv(u) && u == Run(s, did)
    modifies rdb
    ensures t == Run(s, more) && Mirrors(t, rdb) && Inv(t) && t.now >= u.now + POLL
  {
    hide Inv, Run;
    rdb.Elapse(POLL);
    t, more := Continue(s, did, u, Tick(POLL));
    ghost var paused := t;
    t := PerformAll(rdb, others, t);
    RunKeeps(paused, others);
    TimeOnlyGrows(paused, others);
    RunAppend(s, more, others);
    more := more + others;
  }

  /** Polls until a response appears, the deadline passes or the caller goes away.
      `others` are the commands of other requests during the i-th pause. */
  method L0Wait(rdb: Server, p: Pair, others: nat -> seq<Step>, cancelled: nat -> bool, ghost s: State)
      returns (r: WaitResult, ghost t: State, ghost did: seq<Step>)
    requires Mirrors(s, rdb) && Inv(s)
    modifies rdb
    ensures t == Run(s, did) && Mirrors(t, rdb) && Inv(t)
    ensures r.Got? ==> |r.bytes| > 0 && Answers(t, p, Some(r.bytes))
    ensures r.TimedOut? ==> t.now > s.now + TTL && Answers(t, p, None)
  {
    assert Run(s, []) == s;
    hide Inv, Run, Answers;
    var deadline := rdb.now + TTL;
    var i: nat := 0;
    t, did := s, [];
    while true
      invariant t == Run(s, did) && Mirrors(t, rdb) && Inv(t)
      decreases deadline + 1 - rdb.now
    {
      var found;
      found, t, did := PollOnce(rdb, p, s, did, t);
      if found.Some? && |found.value| > 0 {
        return Got(found.value), t, did;
      }
      if rdb.now > deadline {
        NothingFound(t, p, found);
        return TimedOut, t, did;
      }
      if cancelled(i) {
        return Cancelled, t, did;
      }
      t, did := Pause(rdb, others(i), s, did, t);
      i := i + 1;
    }
  }

  lemma NothingFound(t: State, p: Pair, found: Option<string>)
    requires Answers(t, p, found) && (found.None? || |found.value| == 0)
    ensures Answers(t, p, None)
  {
  }

  lemma Continue(s: State, did: seq<Step>, t: State, step: Step) returns (u: State, more: seq<Step>)
    requires t == Run(s, did) && Inv(t)
    ensures more == did + [step] && u == Run(s, more) && u == Apply(t, step) && Inv(u)
  {
    more := did + [step];
    assert more[..|more| - 1] == did;
    u := Apply(t, step);
    StepKeeps(t, step);
  }
}
