// The canonical-request cache: compress names a request by the digest of its canonical
// form, retrieve serves a stored response under that name, store keeps the first good
// response.  Every Redis command is one step and requests interleave freely.
module CcrCache {
  import opened Text
  import opened Redis
  import opened JsonScan
  import opened JsonText
  import opened CanonicalLiterals
  import opened OneText
  import opened CanonicalMessages
  import Canonical

  /** A chat request, or a payload `compress` cannot parse. `others` is the rest of the
      body, re-serialised. */
  datatype Request = Chat(messages: seq<Message>, others: string) | NotChat

  datatype Form = Form(messages: seq<Keyed>, others: string)

  /** SHA-256 in hex, the error predicate, how messages are read, and the lifetime. */
  datatype Config = Config(digest: Form -> string, isError: string -> bool, view: View, ttl: nat)

  /** SHA-256 in hex is 64 digits wide, whatever it is taken of. */
  ghost predicate IsHexDigest(digest: Form -> string)
  {
    forall f :: |digest(f)| == 64
  }

  function FormOf(c: Config, r: Request): Form
    requires r.Chat?
  {
    Form(KeyForm(r.messages, c.view), r.others)
  }

  function HashOf(c: Config, r: Request): Option<string>
  {
    match r
    case Chat(_, _) => Some(c.digest(FormOf(c, r)))
    case NotChat => None
  }

  /** The digest does not collide on these two requests. */
  predicate Apart(c: Config, q: Request, r: Request)
  {
    q.Chat? && r.Chat? && c.digest(FormOf(c, q)) == c.digest(FormOf(c, r)) ==> FormOf(c, q) == FormOf(c, r)
  }

  /** Both conditions can be met at once, whatever the two requests. */
  lemma DigestsExist(view: View, q: Request, r: Request) returns (c: Config)
    ensures IsHexDigest(c.digest) && Apart(c, q, r) && c.view == view
  {
    if q.Chat? {
      var f := Form(KeyForm(q.messages, view), q.others);
      c := Config((g: Form) => seq(64, _ => if g == f then '0' else '1'), (s: string) => false, view, 0);
      if r.Chat? && FormOf(c, q) != FormOf(c, r) {
        assert c.digest(FormOf(c, q))[0] != c.digest(FormOf(c, r))[0];
      }
    } else {
      c := Config((g: Form) => seq(64, _ => '0'), (s: string) => false, view, 0);
    }
  }

  // ----- what happened -----------------------------------------------------

  datatype Event =
    | Hit(request: Request, body: string, at: int)
    | Miss(request: Request, at: int)
    | Poisoned(request: Request, at: int)
    | Answered(request: Request, status: int, body: string, stored: bool, at: int)
    | Purged(hash: string, at: int)

  /** Events, newest outermost. */
  datatype Log = Start | Then(earlier: Log, event: Event)

  /** The stored response a name stands for, and the request it answered. */
  datatype Stored = Stored(request: Request, status: int, body: string, at: int)

  function LastStored(c: Config, log: Log, hash: string): Option<Stored>
  {
    match log
    case Start => None
    case Then(earlier, e) =>
      if e.Answered? && e.stored && HashOf(c, e.request) == Some(hash) then
        Some(Stored(e.request, e.status, e.body, e.at))
      else if e.Purged? && e.hash == hash then None
      else LastStored(c, earlier, hash)
  }

  function LiveAt(c: Config, log: Log, hash: string, now: int): Option<Stored>
  {
    var last := LastStored(c, log, hash);
    if last.Some? && now < last.value.at + c.ttl then last else None
  }

  predicate Good(c: Config, status: int, body: string)
  {
    status == 200 && |body| > 0 && !c.isError(body)
  }

  /** What the cache promises, with no Redis in sight: a response is stored exactly when
      it is good and no stored response is live under its name; a request is served
      exactly the live one; a bad body is never found. */
  ghost predicate Lawful(c: Config, log: Log)
  {
    match log
    case Start => true
    case Then(earlier, e) =>
      && Lawful(c, earlier)
      && (!e.Purged? ==> e.request.Chat?)
      && var live := if e.Purged? then None else LiveAt(c, earlier, HashOf(c, e.request).value, e.at);
         match e
         case Purged(_, _) => true
         case Hit(r, body, at) =>
           live.Some? && live.value.body == body && live.value.at <= at && Good(c, live.value.status, body)
         case Miss(r, at) => live.None?
         case Poisoned(r, at) => false
         case Answered(r, status, body, stored, at) => stored <==> Good(c, status, body) && live.None?
  }

  // ----- the protocol ------------------------------------------------------

  datatype Step =
    | Tick(ms: nat)
    | Retrieve(request: Request)
    | Invalidate(hash: string)
    | Store(request: Request, status: int, response: string)
    | Unlink(hash: string)

  /** `doomed` holds the names of poisoned entries seen but not yet deleted. */
  datatype State = State(now: int, db: Keyspace, log: Log, doomed: multiset<string>)

  function Key(hash: string): string
  {
    "ccr:" + hash
  }

  function Found(s: State, hash: string): string
  {
    var found := Get(s.db, s.now, Key(hash));
    if found.Some? then found.value else ""
  }

  /** One Redis command of one request, or the purge handler dropping one name. */
  function Apply(c: Config, s: State, step: Step): State
  {
    match step
    case Tick(ms) => s.(now := s.now + ms)
    case Retrieve(r) =>
      var hash := HashOf(c, r);
      if hash.None? then s
      else if |Found(s, hash.value)| == 0 then s.(log := Then(s.log, Miss(r, s.now)))
      else if c.isError(Found(s, hash.value)) then
        s.(log := Then(s.log, Poisoned(r, s.now)), doomed := s.doomed + multiset{hash.value})
      else s.(log := Then(s.log, Hit(r, Found(s, hash.value), s.now)))
    case Invalidate(hash) =>
      if hash in s.doomed then s.(db := Remove(s.db, Key(hash)), doomed := s.doomed - multiset{hash}) else s
    case Store(r, status, response) =>
      var hash := HashOf(c, r);
      if hash.None? then s
      else if !Good(c, status, response) then s.(log := Then(s.log, Answered(r, status, response, false, s.now)))
      else
        var free := Get(s.db, s.now, Key(hash.value)).None?;
        s.(db := PutIfAbsent(s.db, s.now, Key(hash.value), response, c.ttl),
           log := Then(s.log, Answered(r, status, response, free, s.now)))
    case Unlink(hash) => s.(db := Remove(s.db, Key(hash)), log := Then(s.log, Purged(hash, s.now)))
  }

  function Run(c: Config, s: State, steps: seq<Step>): State
    decreases |steps|
  {
    if |steps| == 0 then s else Apply(c, Run(c, s, steps[..|steps| - 1]), steps[|steps| - 1])
  }

  // ----- Redis keeps the promise -------------------------------------------

  ghost predicate EntryMatches(c: Config, s: State, hash: string)
  {
    match LastStored(c, s.log, hash)
    case None => Key(hash) !in s.db
    case Some(k) =>
      && Key(hash) in s.db && s.db[Key(hash)] == Entry(k.body, k.at + c.ttl)
      && Good(c, k.status, k.body) && k.at <= s.now
  }

  ghost predicate Inv(c: Config, s: State)
  {
    Lawful(c, s.log) && s.doomed == multiset{} && forall hash :: EntryMatches(c, s, hash)
  }

  lemma KeysApart(a: string, b: string)
    requires Key(a) == Key(b)
    ensures a == b
  {
    assert Key(a)[4..] == a && Key(b)[4..] == b;
  }

  lemma RetrieveKeeps(c: Config, s: State, r: Request)
    requires Inv(c, s)
    ensures Inv(c, Apply(c, s, Retrieve(r)))
  {
    assert HashOf(c, r).Some? <==> r.Chat?;
    hide Key, HashOf;
    var t := Apply(c, s, Retrieve(r));
    if HashOf(c, r).Some? {
      assert EntryMatches(c, s, HashOf(c, r).value);
    }
    forall hash
      ensures EntryMatches(c, t, hash)
    {
      assert EntryMatches(c, s, hash);
    }
  }

  lemma StoreKeeps(c: Config, s: State, r: Request, status: int, response: string)
    requires Inv(c, s)
    ensures Inv(c, Apply(c, s, Store(r, status, response)))
  {
    assert HashOf(c, r).Some? <==> r.Chat?;
    hide Key, HashOf;
    var t := Apply(c, s, Store(r, status, response));
    if HashOf(c, r).Some? {
      assert EntryMatches(c, s, HashOf(c, r).value);
    }
    forall hash
      ensures EntryMatches(c, t, hash)
    {
      assert EntryMatches(c, s, hash);
      if HashOf(c, r).Some? && Key(hash) == Key(HashOf(c, r).value) {
        KeysApart(hash, HashOf(c, r).value);
      }
    }
  }

  lemma UnlinkKeeps(c: Config, s: State, purged: string)
    requires Inv(c, s)
    ensures Inv(c, Apply(c, s, Unlink(purged)))
  {
    hide Key, HashOf;
    forall hash
      ensures EntryMatches(c, Apply(c, s, Unlink(purged)), hash)
    {
      assert EntryMatches(c, s, hash);
      if Key(hash) == Key(purged) {
        KeysApart(hash, purged);
      }
    }
  }

  lemma StepKeeps(c: Config, s: State, step: Step)
    requires Inv(c, s)
    ensures Inv(c, Apply(c, s, step))
  {
    match step
    case Tick(ms) =>
      forall hash
        ensures EntryMatches(c, Apply(c, s, step), hash)
      {
        assert EntryMatches(c, s, hash);
      }
    case Retrieve(r) => RetrieveKeeps(c, s, r);
    case Invalidate(hash) =>
    case Store(r, status, response) => StoreKeeps(c, s, r, status, response);
    case Unlink(hash) => UnlinkKeeps(c, s, hash);
  }

  lemma {:induction false} RunKeeps(c: Config, s: State, steps: seq<Step>)
    requires Inv(c, s)
    ensures Inv(c, Run(c, s, steps))
    decreases |steps|
  {
    hide Inv;
    if |steps| > 0 {
      RunKeeps(c, s, steps[..|steps| - 1]);
      StepKeeps(c, Run(c, s, steps[..|steps| - 1]), steps[|steps| - 1]);
    }
  }

  ghost predicate Reachable(c: Config, s: State)
  {
    exists start: int, steps: seq<Step> :: s == Run(c, State(start, map[], Start, multiset{}), steps)
  }

  /** In every interleaving the log is lawful and no entry ever awaits deletion. */
  lemma EveryRunIsLawful(c: Config, s: State)
    requires Reachable(c, s)
    ensures Inv(c, s) && Lawful(c, s.log) && s.doomed == multiset{}
  {
    var start: int, steps: seq<Step> :| s == Run(c, State(start, map[], Start, multiset{}), steps);
    RunKeeps(c, State(start, map[], Start, multiset{}), steps);
  }

  /** The delete branch is dead code: whatever is live is a non-empty body that is no
      error, from a response with status 200 to a request of that name. */
  lemma LiveEntryIsGood(c: Config, s: State, hash: string)
    requires Reachable(c, s) && Get(s.db, s.now, Key(hash)).Some?
    ensures var live := LiveAt(c, s.log, hash, s.now);
            && live.Some? && Get(s.db, s.now, Key(hash)) == Some(live.value.body)
            && live.value.status == 200 && live.value.body != "" && !c.isError(live.value.body)
            && HashOf(c, live.value.request) == Some(hash)
  {
    EveryRunIsLawful(c, s);
    assert EntryMatches(c, s, hash);
    StoredUnderOwnName(c, s.log, hash);
  }

  lemma {:induction false} StoredUnderOwnName(c: Config, log: Log, hash: string)
    requires LastStored(c, log, hash).Some?
    ensures HashOf(c, LastStored(c, log, hash).value.request) == Some(hash)
  {
    if log.Then? && !(log.event.Answered? && log.event.stored && HashOf(c, log.event.request) == Some(hash)) {
      StoredUnderOwnName(c, log.earlier, hash);
    }
  }

  // ----- the first writer wins ---------------------------------------------

  lemma LiveAfterStep(c: Config, s: State, step: Step, hash: string)
    requires Inv(c, s) && LiveAt(c, s.log, hash, s.now).Some? && step != Unlink(hash)
    ensures LastStored(c, Apply(c, s, step).log, hash) == LastStored(c, s.log, hash)
  {
    assert EntryMatches(c, s, hash);
  }

  /** A live entry never changes: whatever else runs, until its hour is up or its name is
      purged the name stands for the same response. */
  lemma {:induction false} LiveEntryNeverChanges(c: Config, s: State, steps: seq<Step>, hash: string)
    requires Inv(c, s) && LiveAt(c, s.log, hash, s.now).Some?
    ensures var live, t := LiveAt(c, s.log, hash, s.now).value, Run(c, s, steps);
            t.now < live.at + c.ttl && Unlink(hash) !in steps ==>
              LiveAt(c, t.log, hash, t.now) == Some(live) && Get(t.db, t.now, Key(hash)) == Some(live.body)
    decreases |steps|
  {
    RunKeeps(c, s, steps);
    assert EntryMatches(c, Run(c, s, steps), hash);
    if |steps| == 0 {
    } else {
      var init, last := steps[..|steps| - 1], steps[|steps| - 1];
      LiveEntryNeverChanges(c, s, init, hash);
      RunKeeps(c, s, init);
      var before := Run(c, s, init);
      assert before.now <= Apply(c, before, last).now;
      if Run(c, s, steps).now < LiveAt(c, s.log, hash, s.now).value.at + c.ttl && Unlink(hash) !in steps {
        LiveAfterStep(c, before, last, hash);
      }
    }
  }

  /** The bodies served under a name since its response was last stored. */
  function ServedSince(c: Config, log: Log, hash: string): set<string>
  {
    match log
    case Start => {}
    case Then(earlier, e) =>
      if e.Answered? && e.stored && HashOf(c, e.request) == Some(hash) then {}
      else if e.Purged? then if e.hash == hash then {} else ServedSince(c, earlier, hash)
      else ServedSince(c, earlier, hash) + (if e.Hit? && HashOf(c, e.request) == Some(hash) then {e.body} else {})
  }

  /** Every hit in one lifetime serves the same bytes. */
  lemma {:induction false} HitsServeTheSameBytes(c: Config, log: Log, hash: string)
    requires Lawful(c, log)
    ensures forall body :: body in ServedSince(c, log, hash) ==>
              LastStored(c, log, hash).Some? && LastStored(c, log, hash).value.body == body
  {
    hide HashOf;
    match log
    case Start =>
    case Then(earlier, e) =>
      HitsServeTheSameBytes(c, earlier, hash);
  }

  // ----- who shares a response ---------------------------------------------

  ghost predicate SameForms(c: Config, q: Request, r: Request)
    requires q.Chat? && r.Chat?
  {
    && q.others == r.others
    && var x, y := Visible(q.messages, c.view), Visible(r.messages, c.view);
       |x| == |y| && forall k :: 0 <= k < |x| ==> SameForm(c.view, x[k], y[k])
  }

  ghost predicate SameTexts(c: Config, q: Request, r: Request)
    requires q.Chat? && r.Chat?
  {
    && q.others == r.others
    && var x, y := Visible(q.messages, c.view), Visible(r.messages, c.view);
       |x| == |y| && forall k :: 0 <= k < |x| ==> SameUpToWhitespace(c.view, x[k], y[k])
  }

  predicate NoUnicodeIn(c: Config, r: Request)
    requires r.Chat?
  {
    forall m :: m in Visible(r.messages, c.view) ==> NoUnicodeContent(m)
  }

  predicate PlainIn(c: Config, r: Request)
    requires r.Chat?
  {
    forall m :: m in Visible(r.messages, c.view) ==> PlainContent(m)
  }

  /** Whatever JSON reader they are given to, the two requests say the same, up to white
      space and blank system messages. */
  ghost predicate RequestsReadAlike(c: Config, q: Request, r: Request)
    requires q.Chat? && r.Chat?
  {
    q.others == r.others && ListsReadAlike(q.messages, r.messages, c.view)
  }

  ghost predicate AmbiguousRequest(c: Config, r: Request)
    requires r.Chat?
  {
    exists m :: m in Visible(r.messages, c.view) && AmbiguousMessage(c.view, m)
  }

  /** Unless the digest collides, two requests share a name exactly when their messages,
      blank system ones aside, become the same bytes; for plainly spelled ones that is
      exactly sameness up to white space, and without \uXXXX it still implies it. Unless
      the request is ambiguous, a shared name implies that the two read alike. */
  lemma {:induction false} SameNameIff(c: Config, q: Request, r: Request)
    requires Apart(c, q, r) && q.Chat? && r.Chat?
    ensures HashOf(c, q) == HashOf(c, r) <==> SameForms(c, q, r)
    ensures PlainIn(c, q) && PlainIn(c, r) ==> (HashOf(c, q) == HashOf(c, r) <==> SameTexts(c, q, r))
    ensures NoUnicodeIn(c, q) && NoUnicodeIn(c, r) && HashOf(c, q) == HashOf(c, r) ==> SameTexts(c, q, r)
    ensures !AmbiguousRequest(c, q) && HashOf(c, q) == HashOf(c, r) ==> RequestsReadAlike(c, q, r)
  {
    hide KeyForm, Visible, SameForm, SameUpToWhitespace, PlainContent, NoUnicodeContent;
    hide AmbiguousMessage, ListsReadAlike;
    SameKeyIffSameForms(q.messages, r.messages, c.view);
    FormsAgree(c, q, r);
    if !AmbiguousRequest(c, q) && HashOf(c, q) == HashOf(c, r) {
      SameKeyReadsAlike(q.messages, r.messages, c.view);
    }
  }

  lemma {:induction false} FormsAgree(c: Config, q: Request, r: Request)
    requires q.Chat? && r.Chat?
    ensures PlainIn(c, q) && PlainIn(c, r) ==> (SameForms(c, q, r) <==> SameTexts(c, q, r))
    ensures NoUnicodeIn(c, q) && NoUnicodeIn(c, r) && SameForms(c, q, r) ==> SameTexts(c, q, r)
  {
    hide Visible, SameForm, SameUpToWhitespace, PlainContent, NoUnicodeContent;
    var v, x, y := c.view, Visible(q.messages, c.view), Visible(r.messages, c.view);
    forall k | 0 <= k < |x| && k < |y|
      ensures PlainContent(x[k]) && PlainContent(y[k]) ==>
                (SameForm(v, x[k], y[k]) <==> SameUpToWhitespace(v, x[k], y[k]))
      ensures NoUnicodeContent(x[k]) && NoUnicodeContent(y[k]) && SameForm(v, x[k], y[k]) ==>
                SameUpToWhitespace(v, x[k], y[k])
    {
      MessagesAgree(v, x[k], y[k]);
    }
    assert forall k :: 0 <= k < |x| ==> x[k] in x;
    assert forall k :: 0 <= k < |y| ==> y[k] in y;
  }

  /** A name stands for one text, whoever else uses it, exactly when the request is not
      ambiguous. */
  lemma NameMeansTextIff(c: Config, q: Request)
    requires q.Chat? && Canonical.IsSpaceClass(c.view.space)
    ensures (forall r: Request ::
               r.Chat? && Apart(c, q, r) && HashOf(c, q) == HashOf(c, r) ==> RequestsReadAlike(c, q, r))
            <==> !AmbiguousRequest(c, q)
  {
    hide KeyForm, AmbiguousRequest, RequestsReadAlike;
    if AmbiguousRequest(c, q) {
      var r := OtherRequest(c, q);
    } else {
      forall r: Request | r.Chat? && Apart(c, q, r) && HashOf(c, q) == HashOf(c, r)
        ensures RequestsReadAlike(c, q, r)
      {
        SameNameIff(c, q, r);
      }
    }
  }

  /** An ambiguous request shares its form with one that reads otherwise. */
  lemma OtherRequest(c: Config, q: Request) returns (r: Request)
    requires q.Chat? && Canonical.IsSpaceClass(c.view.space) && AmbiguousRequest(c, q)
    ensures r.Chat? && FormOf(c, q) == FormOf(c, r) && HashOf(c, q) == HashOf(c, r) && Apart(c, q, r) && Apart(c, r, q)
    ensures !RequestsReadAlike(c, q, r)
  {
    hide KeyForm, AmbiguousMessage, ListsReadAlike, Visible;
    var m :| m in Visible(q.messages, c.view) && AmbiguousMessage(c.view, m);
    var b := OtherList(q.messages, m, c.view);
    r := Chat(b, q.others);
  }

  /** Two requests that share their name under every digest although their texts differ:
      a doubled space after \u00e9, and the same six characters spelled out. */
  lemma OneNameTwoTexts(c: Config, rest: string, others: string) returns (q: Request, r: Request)
    requires c.view.role(rest) == "user" && c.view.finds(rest)
    ensures HashOf(c, q) == HashOf(c, r) && q.Chat? && r.Chat? && |q.messages| == |r.messages| == 1
    ensures q.messages[0].content.Some? && r.messages[0].content.Some?
    ensures Denoted(q.messages[0].content.value) != Denoted(r.messages[0].content.value)
  {
    SpelledOutSharesTheForm();
    var two: Literal, out: Literal := Headed(E_ACUTE, "  x"), Headed(Escaped('\\'), "u00e9 x");
    var a, b := Message(Some(two), rest), Message(Some(out), rest);
    q, r := Chat([a], others), Chat([b], others);
    hide *;
    OneMessage(c, two, out, rest, others);
  }

  lemma OneMessage(c: Config, l: Literal, m: Literal, rest: string, others: string)
    requires SharesForm(l, m) && c.view.role(rest) == "user" && c.view.finds(rest)
    ensures HashOf(c, Chat([Message(Some(l), rest)], others)) == HashOf(c, Chat([Message(Some(m), rest)], others))
  {
    hide CanonicalLiteral, Compacted, CanonicalizeMessage, Written;
    var a, b := Message(Some(l), rest), Message(Some(m), rest);
    CanonicalizeOne(a, c.view);
    CanonicalizeOne(b, c.view);
    assert SameForm(c.view, a, b);
    SameFormIsSameBytes(c.view, a, b);
    assert KeyForm([a], c.view) == [Written(c.view, CanonicalizeMessage(c.view, a))];
    assert KeyForm([b], c.view) == [Written(c.view, CanonicalizeMessage(c.view, b))];
  }

  /** The requests a log speaks of. */
  function Requests(log: Log): set<Request>
  {
    match log
    case Start => {}
    case Then(earlier, e) => Requests(earlier) + if e.Purged? then {} else {e.request}
  }

  ghost predicate NoCollisions(c: Config, log: Log)
  {
    forall q, r :: q in Requests(log) && r in Requests(log) ==> Apart(c, q, r)
  }

  /** A hit was the good answer, less than a lifetime ago, to some request that became
      the same bytes; and that reads the same, unless the request is ambiguous. */
  lemma HitAnswersAnEquivalentRequest(c: Config, log: Log)
    requires NoCollisions(c, log) && Lawful(c, log) && log.Then? && log.event.Hit?
    ensures exists k: Stored :: IsAnswerFor(c, k, log.event)
  {
    hide SameForms, SameTexts, NoUnicodeIn, AmbiguousRequest, RequestsReadAlike, FormOf;
    var hash := HashOf(c, log.event.request).value;
    var k := LastStored(c, log.earlier, hash).value;
    StoredUnderOwnName(c, log.earlier, hash);
    StoredWasAsked(c, log.earlier, hash);
    assert Apart(c, k.request, log.event.request) && Apart(c, log.event.request, k.request);
    SameNameIff(c, k.request, log.event.request);
    SameNameIff(c, log.event.request, k.request);
    assert IsAnswerFor(c, k, log.event);
  }

  ghost predicate IsAnswerFor(c: Config, k: Stored, e: Event)
    requires e.Hit? && e.request.Chat?
  {
    && k.body == e.body && Good(c, k.status, k.body) && k.at <= e.at < k.at + c.ttl
    && k.request.Chat? && SameForms(c, k.request, e.request)
    && (NoUnicodeIn(c, k.request) && NoUnicodeIn(c, e.request) ==> SameTexts(c, k.request, e.request))
    && (!AmbiguousRequest(c, e.request) ==> RequestsReadAlike(c, e.request, k.request))
  }

  lemma {:induction false} StoredWasAsked(c: Config, log: Log, hash: string)
    requires LastStored(c, log, hash).Some?
    ensures LastStored(c, log, hash).value.request.Chat? && LastStored(c, log, hash).value.request in Requests(log)
  {
    StoredUnderOwnName(c, log, hash);
    if !(log.event.Answered? && log.event.stored && HashOf(c, log.event.request) == Some(hash)) {
      StoredWasAsked(c, log.earlier, hash);
    }
  }

  /** The log ends in a hit that serves `q` the answer to a request of another text. */
  ghost predicate ServesAnother(c: Config, log: Log, q: Request)
    requires q.Chat?
  {
    && log.Then? && log.event.Hit? && log.event.request == q
    && var k := LastStored(c, log.earlier, HashOf(c, q).value);
       k.Some? && k.value.request.Chat? && !RequestsReadAlike(c, q, k.value.request)
  }

  /** Some run without digest collisions serves the request the answer to a request of
      another text exactly when it is ambiguous. */
  lemma WrongAnswerIff(c: Config, q: Request, body: string)
    requires q.Chat? && Canonical.IsSpaceClass(c.view.space) && Good(c, 200, body) && c.ttl > 0
    ensures (exists s :: Reachable(c, s) && NoCollisions(c, s.log) && ServesAnother(c, s.log, q))
            <==> AmbiguousRequest(c, q)
  {
    hide AmbiguousRequest, RequestsReadAlike, Apart, Reachable, NoCollisions, ServesAnother;
    if AmbiguousRequest(c, q) {
      var r := OtherRequest(c, q);
      var s := StoreThenHit(c, q, r, body);
    } else if s :| Reachable(c, s) && NoCollisions(c, s.log) && ServesAnother(c, s.log, q) {
      NeverAnother(c, s, q);
    }
  }

  lemma NeverAnother(c: Config, s: State, q: Request)
    requires q.Chat? && Reachable(c, s) && NoCollisions(c, s.log) && !AmbiguousRequest(c, q)
    ensures !ServesAnother(c, s.log, q)
  {
    hide AmbiguousRequest, RequestsReadAlike, FormOf;
    EveryRunIsLawful(c, s);
    if ServesAnother(c, s.log, q) {
      var hash := HashOf(c, q).value;
      var k := LastStored(c, s.log.earlier, hash).value;
      StoredUnderOwnName(c, s.log.earlier, hash);
      StoredWasAsked(c, s.log.earlier, hash);
      assert Apart(c, q, k.request);
      SameNameIff(c, q, k.request);
    }
  }

  /** The first request is answered and stored, the second is served that answer. */
  lemma StoreThenHit(c: Config, q: Request, r: Request, body: string) returns (s: State)
    requires q.Chat? && r.Chat? && HashOf(c, q) == HashOf(c, r) && Apart(c, q, r) && Apart(c, r, q)
    requires Good(c, 200, body) && c.ttl > 0 && !RequestsReadAlike(c, q, r)
    ensures Reachable(c, s) && NoCollisions(c, s.log) && ServesAnother(c, s.log, q)
  {
    hide RequestsReadAlike, FormOf;
    var start := State(0, map[], Start, multiset{});
    RunTwo(c, start, Store(r, 200, body), Retrieve(q));
    s := Run(c, start, [Store(r, 200, body), Retrieve(q)]);
    assert s.log == Then(Then(Start, Answered(r, 200, body, true, 0)), Hit(q, body, 0));
    assert Requests(s.log) <= {r, q} by {
      assert Requests(Start) == {};
      assert Requests(Then(Start, Answered(r, 200, body, true, 0))) == {r};
    }
  }

  // ----- the three hooks ---------------------------------------------------

  class HookContext {
    var ccrHash: Option<string>
    var shortCircuitStatus: int
    var shortCircuitBody: string
    var upstreamStatus: int
    var upstreamResponse: string

    constructor ()
      ensures ccrHash == None && shortCircuitStatus == 0 && shortCircuitBody == ""
      ensures upstreamStatus == 0 && upstreamResponse == ""
    {
      ccrHash := None;
      shortCircuitStatus, shortCircuitBody := 0, "";
      upstreamStatus, upstreamResponse := 0, "";
    }
  }

  ghost predicate Mirrors(s: State, rdb: Server)
    reads rdb
  {
    s.now == rdb.now && s.db == rdb.db
  }

  method CompressBeforeRequest(hctx: HookContext, c: Config, r: Request)
    modifies hctx`ccrHash
    ensures hctx.ccrHash == if r.Chat? then HashOf(c, r) else old(hctx.ccrHash)
  {
    if r.NotChat? {
      return;
    }
    var compressed := Compress(r.messages, c.view);
    hctx.ccrHash := Some(c.digest(Form(compressed, r.others)));
  }

  /** On a hit the context carries status 200 and the live body; on a miss it is left
      alone. From a reachable state nothing is ever deleted. */
  method RetrieveBeforeRequest(rdb: Server, hctx: HookContext, c: Config, ghost r: Request, ghost s: State)
      returns (ghost t: State, ghost did: seq<Step>)
    requires Mirrors(s, rdb) && hctx.ccrHash == HashOf(c, r) && IsHexDigest(c.digest)
    modifies rdb, hctx`shortCircuitStatus, hctx`shortCircuitBody
    ensures t == Run(c, s, did) && Mirrors(t, rdb)
    ensures Inv(c, s) ==> did == [Retrieve(r)] && rdb.db == old(rdb.db)
    ensures Inv(c, s) ==>
              var live := if r.Chat? then LiveAt(c, s.log, HashOf(c, r).value, s.now) else None;
              if live.Some? then hctx.shortCircuitStatus == 200 && hctx.shortCircuitBody == live.value.body
              else hctx.shortCircuitStatus == old(hctx.shortCircuitStatus)
                   && hctx.shortCircuitBody == old(hctx.shortCircuitBody)
  {
    did := [Retrieve(r)];
    t := Apply(c, s, Retrieve(r));
    RunOne(c, s, Retrieve(r));
    if hctx.ccrHash.None? || hctx.ccrHash.value == "" {
      return;
    }
    assert Inv(c, s) ==> EntryMatches(c, s, HashOf(c, r).value);
    var key := "ccr:" + hctx.ccrHash.value;
    assert key == Key(HashOf(c, r).value);
    var body := rdb.Fetch(key);
    if body.None? || |body.value| == 0 {
      return;
    }
    if c.isError(body.value) {
      rdb.Del(key);
      did := [Retrieve(r), Invalidate(hctx.ccrHash.value)];
      RunTwo(c, s, Retrieve(r), Invalidate(hctx.ccrHash.value));
      t := Apply(c, t, Invalidate(hctx.ccrHash.value));
      return;
    }
    hctx.shortCircuitStatus := 200;
    hctx.shortCircuitBody := body.value;
  }

  /** A good response to a named request is offered to the cache; the first one stays. */
  method StoreAfterResponse(rdb: Server, hctx: HookContext, c: Config, ghost r: Request, ghost s: State)
      returns (stored: bool, ghost t: State)
    requires Mirrors(s, rdb) && hctx.ccrHash == HashOf(c, r) && IsHexDigest(c.digest)
    modifies rdb
    ensures t == Apply(c, s, Store(r, hctx.upstreamStatus, hctx.upstreamResponse)) && Mirrors(t, rdb)
    ensures Inv(c, s) ==> (stored <==> r.Chat? && hctx.upstreamStatus == 200 && hctx.upstreamResponse != ""
                                       && !c.isError(hctx.upstreamResponse)
                                       && LiveAt(c, s.log, HashOf(c, r).value, s.now).None?)
  {
    t := Apply(c, s, Store(r, hctx.upstreamStatus, hctx.upstreamResponse));
    if hctx.upstreamStatus != 200 {
      return false, t;
    }
    if |hctx.upstreamResponse| == 0 || c.isError(hctx.upstreamResponse) {
      return false, t;
    }
    if hctx.ccrHash.None? || hctx.ccrHash.value == "" {
      return false, t;
    }
    assert Inv(c, s) ==> EntryMatches(c, s, HashOf(c, r).value);
    var key := "ccr:" + hctx.ccrHash.value;
    assert key == Key(HashOf(c, r).value);
    stored := rdb.SetNX(key, hctx.upstreamResponse, c.ttl);
  }

  lemma RunOne(c: Config, s: State, step: Step)
    ensures Run(c, s, [step]) == Apply(c, s, step)
  {
    assert [step][..0] == [];
    assert Run(c, s, []) == s;
  }

  lemma RunTwo(c: Config, s: State, one: Step, two: Step)
    ensures Run(c, s, [one, two]) == Apply(c, Apply(c, s, one), two)
  {
    assert [one, two][..1] == [one];
    RunOne(c, s, one);
  }
}
