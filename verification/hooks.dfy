// The hook registry and the two pipelines over it: registration overwrites by name,
// hooks run in (priority, name) order, a failing hook is skipped, and the request
// pipeline stops at the first short circuit.
module Hooks {
  import opened Text
  import opened Order

  /** What the registry knows of a hook; `impl` tells apart hooks of one name. */
  datatype Hook = Hook(name: string, priority: int, impl: nat)

  // ----- the registry ------------------------------------------------------

  ghost predicate DistinctNames(hs: seq<Hook>)
  {
    forall i, j :: 0 <= i < j < |hs| ==> hs[i].name != hs[j].name
  }

  predicate Registered(hs: seq<Hook>, name: string)
  {
    exists i :: 0 <= i < |hs| && hs[i].name == name
  }

  /** The registry as a function of names. */
  ghost function ByName(hs: seq<Hook>): map<string, Hook>
  {
    if |hs| == 0 then map[] else ByName(hs[..|hs| - 1])[hs[|hs| - 1].name := hs[|hs| - 1]]
  }

  lemma {:induction false} ByNameFinds(hs: seq<Hook>)
    requires DistinctNames(hs)
    ensures forall n :: n in ByName(hs) <==> Registered(hs, n)
    ensures forall i :: 0 <= i < |hs| ==> hs[i].name in ByName(hs) && ByName(hs)[hs[i].name] == hs[i]
  {
    if |hs| > 0 {
      var init, last := hs[..|hs| - 1], hs[|hs| - 1];
      ByNameFinds(init);
      assert forall i :: 0 <= i < |init| ==> init[i] == hs[i];
      forall n
        ensures n in ByName(hs) <==> Registered(hs, n)
      {
        if Registered(init, n) {
          var i :| 0 <= i < |init| && init[i].name == n;
          assert hs[i].name == n;
        }
        if n == last.name {
          assert hs[|hs| - 1].name == n;
        }
      }
    }
  }

  /** A map that agrees with the list on every name is the registry's map. */
  lemma {:induction false} ByNameIs(hs: seq<Hook>, m: map<string, Hook>)
    requires DistinctNames(hs)
    requires forall n :: n in m <==> Registered(hs, n)
    requires forall i :: 0 <= i < |hs| && hs[i].name in m ==> m[hs[i].name] == hs[i]
    ensures ByName(hs) == m
  {
    hide ByName, DistinctNames;
    ByNameFinds(hs);
    var found := ByName(hs);
    forall n | n in m
      ensures n in found && found[n] == m[n]
    {
      var i :| 0 <= i < |hs| && hs[i].name == n;
      assert found[hs[i].name] == hs[i];
    }
    assert found == m;
  }

  class Registry {
    var hooks: seq<Hook>

    ghost predicate Valid()
      reads this
    {
      DistinctNames(hooks)
    }

    constructor ()
      ensures Valid() && hooks == [] && ByName(hooks) == map[]
    {
      hooks := [];
    }

    /** A hook of the same name is overwritten where it stands. */
    method RegisterHook(h: Hook)
      requires Valid()
      modifies this
      ensures Valid() && ByName(hooks) == old(ByName(hooks))[h.name := h]
      ensures |hooks| == |old(hooks)| + if Registered(old(hooks), h.name) then 0 else 1
      ensures forall i :: 0 <= i < |old(hooks)| ==>
                hooks[i] == if old(hooks)[i].name == h.name then h else old(hooks)[i]
      ensures !Registered(old(hooks), h.name) ==> hooks == old(hooks) + [h]
    {
      hide ByName, DistinctNames;
      for i := 0 to |hooks|
        invariant hooks == old(hooks) && forall j :: 0 <= j < i ==> hooks[j].name != h.name
      {
        if hooks[i].name == h.name {
          Overwrites(hooks, i, h);
          hooks := hooks[i := h];
          return;
        }
      }
      Appends(hooks, h);
      hooks := hooks + [h];
    }

    method UnregisterHook(name: string) returns (removed: bool)
      requires Valid()
      modifies this
      ensures Valid() && ByName(hooks) == old(ByName(hooks)) - {name}
      ensures removed <==> Registered(old(hooks), name)
      ensures !removed ==> hooks == old(hooks)
    {
      ByNameFinds(hooks);
      for i := 0 to |hooks|
        invariant hooks == old(hooks) && forall j :: 0 <= j < i ==> hooks[j].name != name
      {
        if hooks[i].name == name {
          hooks := hooks[..i] + hooks[i + 1..];
          RemoveAt(old(hooks), i, hooks);
          ByNameIs(hooks, old(ByName(hooks)) - {name});
          return true;
        }
      }
      assert old(ByName(hooks)) - {name} == old(ByName(hooks));
      return false;
    }

    method GetHooks() returns (snapshot: seq<Hook>)
      ensures snapshot == hooks
    {
      return hooks;
    }

    method ResetHooks()
      modifies this
      ensures Valid() && hooks == [] && ByName(hooks) == map[]
    {
      hooks := [];
    }
  }

  lemma Overwrites(hs: seq<Hook>, i: nat, h: Hook)
    requires i < |hs| && hs[i].name == h.name && DistinctNames(hs)
    ensures DistinctNames(hs[i := h]) && ByName(hs[i := h]) == ByName(hs)[h.name := h]
    ensures forall j :: 0 <= j < |hs| && j != i ==> hs[j].name != h.name
    ensures Registered(hs, h.name)
  {
    hide ByName;
    RegisteredAfterUpdate(hs, i, h);
    ByNameFinds(hs);
    ByNameIs(hs[i := h], ByName(hs)[h.name := h]);
  }

  lemma Appends(hs: seq<Hook>, h: Hook)
    requires DistinctNames(hs) && !Registered(hs, h.name)
    ensures DistinctNames(hs + [h]) && ByName(hs + [h]) == ByName(hs)[h.name := h]
  {
    assert (hs + [h])[..|hs|] == hs;
  }

  lemma RegisteredAfterUpdate(hs: seq<Hook>, i: nat, h: Hook)
    requires i < |hs| && hs[i].name == h.name && DistinctNames(hs)
    ensures DistinctNames(hs[i := h]) && forall n :: Registered(hs[i := h], n) <==> Registered(hs, n)
  {
    forall n
      ensures Registered(hs[i := h], n) <==> Registered(hs, n)
    {
      assert forall j :: 0 <= j < |hs| ==> hs[i := h][j].name == hs[j].name;
      if Registered(hs, n) {
        var j :| 0 <= j < |hs| && hs[j].name == n;
        assert hs[i := h][j].name == n;
      }
    }
  }

  lemma RemoveAt(hs: seq<Hook>, i: nat, out: seq<Hook>)
    requires i < |hs| && DistinctNames(hs) && out == hs[..i] + hs[i + 1..]
    ensures DistinctNames(out)
    ensures forall n :: Registered(out, n) <==> Registered(hs, n) && n != hs[i].name
    ensures forall j :: 0 <= j < |out| ==> out[j] == hs[if j < i then j else j + 1]
  {
    assert forall j :: 0 <= j < |out| ==> out[j] == hs[if j < i then j else j + 1];
    forall n
      ensures Registered(out, n) <==> Registered(hs, n) && n != hs[i].name
    {
      if Registered(hs, n) && n != hs[i].name {
        var j :| 0 <= j < |hs| && hs[j].name == n;
        assert out[if j < i then j else j - 1].name == n;
      }
      if Registered(out, n) {
        var j :| 0 <= j < |out| && out[j].name == n;
        assert hs[if j < i then j else j + 1].name == n;
      }
    }
  }

  datatype Op = Register(hook: Hook) | Unregister(name: string) | Reset

  function LastOf(ops: seq<Op>): map<string, Hook>
  {
    if |ops| == 0 then map[]
    else
      match ops[|ops| - 1]
      case Register(h) => LastOf(ops[..|ops| - 1])[h.name := h]
      case Unregister(n) => LastOf(ops[..|ops| - 1]) - {n}
      case Reset => map[]
  }

  /** The registry never holds two hooks of one name, whatever is done to it, and
      holds for each name the hook last registered under it. */
  method Perform(ops: seq<Op>) returns (r: Registry)
    ensures fresh(r) && DistinctNames(r.hooks) && ByName(r.hooks) == LastOf(ops)
  {
    r := new Registry();
    for k := 0 to |ops|
      invariant fresh(r) && r.Valid() && ByName(r.hooks) == LastOf(ops[..k])
    {
      assert ops[..k + 1][..k] == ops[..k];
      match ops[k] {
        case Register(h) => r.RegisterHook(h);
        case Unregister(n) => var _ := r.UnregisterHook(n);
        case Reset => r.ResetHooks();
      }
    }
    assert ops[..|ops|] == ops;
  }

  // ----- the order of a run ------------------------------------------------

  predicate Precedes(a: Hook, b: Hook)
  {
    a.priority < b.priority || (a.priority == b.priority && Less(a.name, b.name))
  }

  lemma PrecedesIsOrder(a: Hook, b: Hook, c: Hook)
    ensures !Precedes(a, a)
    ensures Precedes(a, b) && Precedes(b, c) ==> Precedes(a, c)
    ensures Precedes(a, b) ==> !Precedes(b, a)
    ensures a.name != b.name ==> Precedes(a, b) || Precedes(b, a)
  {
    LessIrreflexive(a.name);
    LessTotal(a.name, b.name);
    if Less(a.name, b.name) {
      LessAsymmetric(a.name, b.name);
      if Less(b.name, c.name) {
        LessTransitive(a.name, b.name, c.name);
      }
    }
  }

  ghost predicate InOrder(hs: seq<Hook>)
  {
    forall i, j :: 0 <= i < j < |hs| ==> Precedes(hs[i], hs[j])
  }

  ghost predicate SameHooks(a: seq<Hook>, b: seq<Hook>)
  {
    forall h :: h in a <==> h in b
  }

  function InsertHook(h: Hook, hs: seq<Hook>): seq<Hook>
  {
    if |hs| == 0 then [h]
    else if Precedes(h, hs[0]) then [h] + hs
    else [hs[0]] + InsertHook(h, hs[1..])
  }

  /** A stable sort by priority, then name. */
  function SortHooks(hs: seq<Hook>): seq<Hook>
  {
    if |hs| == 0 then [] else InsertHook(hs[|hs| - 1], SortHooks(hs[..|hs| - 1]))
  }

  lemma {:induction false} InsertKeepsHooks(h: Hook, hs: seq<Hook>)
    ensures forall x :: x in InsertHook(h, hs) <==> x == h || x in hs
  {
    if |hs| > 0 && !Precedes(h, hs[0]) {
      InsertKeepsHooks(h, hs[1..]);
      assert hs == [hs[0]] + hs[1..];
    }
  }

  lemma {:induction false} InsertInOrder(h: Hook, hs: seq<Hook>)
    requires InOrder(hs) && forall x :: x in hs ==> x.name != h.name
    ensures InOrder(InsertHook(h, hs))
  {
    if |hs| == 0 {
    } else if Precedes(h, hs[0]) {
      forall j | 0 <= j < |hs|
        ensures Precedes(h, hs[j])
      {
        PrecedesIsOrder(h, hs[0], hs[j]);
      }
    } else {
      assert hs[0] in hs && forall x :: x in hs[1..] ==> x in hs;
      PrecedesIsOrder(h, hs[0], h);
      InsertInOrder(h, hs[1..]);
      InsertKeepsHooks(h, hs[1..]);
      var rest := InsertHook(h, hs[1..]);
      forall j | 0 <= j < |rest|
        ensures Precedes(hs[0], rest[j])
      {
        assert rest[j] in rest;
        if rest[j] != h {
          var k :| 0 <= k < |hs[1..]| && hs[1..][k] == rest[j];
          assert hs[k + 1] == rest[j];
        }
      }
    }
  }

  lemma {:induction false} SortHooksSorts(hs: seq<Hook>)
    requires DistinctNames(hs)
    ensures InOrder(SortHooks(hs)) && SameHooks(SortHooks(hs), hs)
  {
    if |hs| > 0 {
      var init, last := hs[..|hs| - 1], hs[|hs| - 1];
      assert hs == init + [last];
      SortHooksSorts(init);
      InsertKeepsHooks(last, SortHooks(init));
      forall x | x in SortHooks(init)
        ensures x.name != last.name
      {
        assert x in init;
        var i :| 0 <= i < |init| && init[i] == x;
        assert hs[i] == x;
      }
      InsertInOrder(last, SortHooks(init));
    }
  }

  /** Two lists in order that hold the same hooks are the same list. */
  lemma {:induction false} OrderIsUnique(a: seq<Hook>, b: seq<Hook>)
    requires InOrder(a) && InOrder(b) && SameHooks(a, b)
    ensures a == b
  {
    assert |b| > 0 ==> b[0] in a;
    if |a| == 0 {
    } else {
      assert a[0] in b;
      assert |b| > 0;
      FirstIsFirst(a, b);
      TailHasTheRest(a);
      TailHasTheRest(b);
      assert SameHooks(a[1..], b[1..]);
      OrderIsUnique(a[1..], b[1..]);
      assert a == [a[0]] + a[1..] && b == [b[0]] + b[1..];
    }
  }

  lemma FirstIsFirst(a: seq<Hook>, b: seq<Hook>)
    requires |a| > 0 && |b| > 0 && InOrder(a) && InOrder(b) && SameHooks(a, b)
    ensures a[0] == b[0]
  {
    assert a[0] in b && b[0] in a;
    var i :| 0 <= i < |b| && b[i] == a[0];
    var j :| 0 <= j < |a| && a[j] == b[0];
    PrecedesIsOrder(a[0], b[0], a[0]);
  }

  lemma TailHasTheRest(a: seq<Hook>)
    requires |a| > 0 && InOrder(a)
    ensures forall h :: h in a[1..] <==> h in a && h != a[0]
  {
    assert a == [a[0]] + a[1..];
    forall k | 1 <= k < |a|
      ensures a[k] != a[0]
    {
      PrecedesIsOrder(a[0], a[k], a[0]);
    }
    forall h | h in a[1..]
      ensures h != a[0]
    {
      var k :| 0 <= k < |a[1..]| && a[1..][k] == h;
      assert a[k + 1] == h;
    }
  }

  /** Only the name-to-hook map decides the order of a run, not how it came about. */
  lemma RegistrationOrderIsForgotten(a: seq<Hook>, b: seq<Hook>)
    requires DistinctNames(a) && DistinctNames(b) && ByName(a) == ByName(b)
    ensures SortHooks(a) == SortHooks(b)
  {
    hide SortHooks, ByName, InOrder;
    SortHooksSorts(a);
    SortHooksSorts(b);
    ByNameFinds(a);
    ByNameFinds(b);
    forall h
      ensures h in a <==> h in b
    {
      if h in a {
        MapHolds(a, b, h);
      }
      if h in b {
        MapHolds(b, a, h);
      }
    }
    OrderIsUnique(SortHooks(a), SortHooks(b));
  }

  lemma MapHolds(a: seq<Hook>, b: seq<Hook>, h: Hook)
    requires DistinctNames(a) && DistinctNames(b) && ByName(a) == ByName(b) && h in a
    ensures h in b
  {
    hide ByName;
    ByNameFinds(a);
    ByNameFinds(b);
    var i :| 0 <= i < |a| && a[i] == h;
    assert Registered(b, h.name);
    var j :| 0 <= j < |b| && b[j].name == h.name;
    assert b[j] == ByName(b)[h.name] == h;
  }

  lemma {:induction false} SortedIffInOrder(hs: seq<Hook>)
    requires DistinctNames(hs)
    ensures SortHooks(hs) == hs <==> InOrder(hs)
  {
    SortHooksSorts(hs);
    if InOrder(hs) {
      OrderIsUnique(SortHooks(hs), hs);
    }
  }

  /** The snapshot of a registry is its registrations in turn, so it is sorted exactly
      when they were. */
  method RegisterInTurn(hs: seq<Hook>) returns (snapshot: seq<Hook>)
    requires DistinctNames(hs)
    ensures snapshot == hs
    ensures snapshot == SortHooks(snapshot) <==> InOrder(hs)
  {
    var r := new Registry();
    for i := 0 to |hs|
      invariant fresh(r) && r.Valid() && r.hooks == hs[..i]
    {
      assert !Registered(r.hooks, hs[i].name);
      assert hs[..i + 1] == hs[..i] + [hs[i]];
      r.RegisterHook(hs[i]);
    }
    assert hs[..|hs|] == hs;
    snapshot := r.GetHooks();
    SortedIffInOrder(hs);
  }

  /** Two hooks registered in the wrong order. */
  lemma TwoHooksUnsorted()
    ensures var early, late := Hook("early", 1, 0), Hook("late", 2, 0);
            DistinctNames([late, early]) && SortHooks([late, early]) == [early, late] != [late, early]
  {
    var early, late := Hook("early", 1, 0), Hook("late", 2, 0);
    assert early.name[0] != late.name[0];
    assert [late, early][..1] == [late] && [late][..0] == [];
    assert SortHooks([late]) == InsertHook(late, SortHooks([])) == [late];
    assert InsertHook(early, [late]) == [early] + [late];
  }

  // ----- the pipelines -----------------------------------------------------

  type Bytes = string

  /** The request context as far as the runner reads it; `others` stands for every other
      field and for whatever outside state the hooks share. */
  datatype Ctx = Ctx(vk: string, raw: Option<Bytes>, optimized: Option<Bytes>, final: Option<Bytes>,
                     upstream: Option<Bytes>, shortStatus: int, shortBody: Option<Bytes>, others: string)

  /** What a call of a hook leaves behind; a hook may have changed the context before
      it panics. */
  datatype Outcome = Returned(ctx: Ctx, bytes: Option<Bytes>, failed: bool) | Panicked(ctx: Ctx)

  datatype Behaviour = Behaviour(enabled: (Hook, string) -> bool,
                                 before: (Hook, Ctx) -> Outcome, after: (Hook, Ctx) -> Outcome)

  /** The runner recovers panics: no payload, an error. */
  function Recovered(o: Outcome): (Ctx, Option<Bytes>)
  {
    match o
    case Returned(ctx, bytes, _) => (ctx, bytes)
    case Panicked(ctx) => (ctx, None)
  }

  datatype Run = Run(ctx: Ctx, payload: Option<Bytes>, stopped: bool)

  /** One hook of the request pipeline. */
  function Step(b: Behaviour, h: Hook, r: Run): Run
  {
    if r.stopped || !b.enabled(h, r.ctx.vk) then r
    else
      var (ctx, bytes) := Recovered(b.before(h, r.ctx));
      var next := if bytes.Some? then ctx.(optimized := bytes) else ctx;
      Run(next, if bytes.Some? then bytes else r.payload, next.shortStatus != 0 && next.shortBody.Some?)
  }

  function Fold(b: Behaviour, hs: seq<Hook>, r: Run): Run
  {
    if |hs| == 0 then r else Step(b, hs[|hs| - 1], Fold(b, hs[..|hs| - 1], r))
  }

  function Started(ctx: Ctx): Run
  {
    Run(ctx, if ctx.optimized.Some? then ctx.optimized else ctx.raw, false)
  }

  /** The final payload is recorded only when no hook short-circuits. */
  function Finished(r: Run): Run
  {
    if r.stopped then r else r.(ctx := r.ctx.(final := r.payload))
  }

  function StepAfter(b: Behaviour, h: Hook, ctx: Ctx, body: Option<Bytes>): (Ctx, Option<Bytes>)
  {
    if !b.enabled(h, ctx.vk) then (ctx, body)
    else
      var (next, bytes) := Recovered(b.after(h, ctx));
      if bytes.Some? then (next.(upstream := bytes), bytes) else (next, body)
  }

  function FoldAfter(b: Behaviour, hs: seq<Hook>, ctx: Ctx): (Ctx, Option<Bytes>)
  {
    if |hs| == 0 then (ctx, ctx.upstream)
    else
      var (c, body) := FoldAfter(b, hs[..|hs| - 1], ctx);
      StepAfter(b, hs[|hs| - 1], c, body)
  }

  lemma {:induction false} FoldSplit(b: Behaviour, x: seq<Hook>, y: seq<Hook>, r: Run)
    ensures Fold(b, x + y, r) == Fold(b, y, Fold(b, x, r))
    decreases |y|
  {
    if |y| == 0 {
      assert x + y == x;
    } else {
      assert (x + y)[..|x + y| - 1] == x + y[..|y| - 1];
      FoldSplit(b, x, y[..|y| - 1], r);
    }
  }

  lemma {:induction false} StoppedStays(b: Behaviour, hs: seq<Hook>, r: Run)
    requires r.stopped
    ensures Fold(b, hs, r) == r
  {
    if |hs| > 0 {
      StoppedStays(b, hs[..|hs| - 1], r);
    }
  }

  /** Once a hook leaves a status and a body, no later hook has any effect. */
  lemma LaterHooksNeverRun(b: Behaviour, ran: seq<Hook>, later: seq<Hook>, ctx: Ctx)
    requires Fold(b, ran, Started(ctx)).stopped
    ensures Fold(b, ran + later, Started(ctx)) == Fold(b, ran, Started(ctx))
  {
    FoldSplit(b, ran, later, Started(ctx));
    StoppedStays(b, later, Fold(b, ran, Started(ctx)));
  }

  class HookContext {
    var vk: string
    var raw: Option<Bytes>
    var optimized: Option<Bytes>
    var final: Option<Bytes>
    var upstream: Option<Bytes>
    var shortStatus: int
    var shortBody: Option<Bytes>
    var others: string

    function View(): Ctx
      reads this
    {
      Ctx(vk, raw, optimized, final, upstream, shortStatus, shortBody, others)
    }

    constructor (ctx: Ctx)
      ensures View() == ctx
    {
      vk, raw, optimized, final := ctx.vk, ctx.raw, ctx.optimized, ctx.final;
      upstream, shortStatus, shortBody, others := ctx.upstream, ctx.shortStatus, ctx.shortBody, ctx.others;
    }

    /** What a hook does to the context it was handed. */
    method Become(ctx: Ctx)
      modifies this
      ensures View() == ctx
    {
      vk, raw, optimized, final := ctx.vk, ctx.raw, ctx.optimized, ctx.final;
      upstream, shortStatus, shortBody, others := ctx.upstream, ctx.shortStatus, ctx.shortBody, ctx.others;
    }
  }

  method SafeBeforeRequest(b: Behaviour, h: Hook, hctx: HookContext) returns (payload: Option<Bytes>, failed: bool)
    modifies hctx
    ensures (hctx.View(), payload) == Recovered(b.before(h, old(hctx.View())))
    ensures b.before(h, old(hctx.View())).Panicked? ==> failed && payload == None
  {
    var outcome := b.before(h, hctx.View());
    hctx.Become(outcome.ctx);
    match outcome
    case Returned(_, bytes, f) => return bytes, f;
    case Panicked(_) => return None, true;
  }

  method RunBeforeHooks(registry: Registry, b: Behaviour, hctx: HookContext)
      returns (payload: Option<Bytes>, short: bool)
    requires registry.Valid()
    modifies hctx
    ensures var r := Finished(Fold(b, SortHooks(registry.hooks), Started(old(hctx.View()))));
            payload == r.payload && short == r.stopped && hctx.View() == r.ctx
    ensures var left := Fold(b, SortHooks(registry.hooks), Started(old(hctx.View()))).ctx;
            hctx.View() == if short then left else left.(final := payload)
  {
    var snapshot := registry.GetHooks();
    var all := SortHooks(snapshot);
    ghost var started := Started(hctx.View());
    payload := hctx.optimized;
    if payload == None {
      payload := hctx.raw;
    }
    for i := 0 to |all|
      invariant Fold(b, all[..i], started) == Run(hctx.View(), payload, false)
    {
      assert all[..i + 1][..i] == all[..i];
      if !b.enabled(all[i], hctx.vk) {
        continue;
      }
      var newPayload, failed := SafeBeforeRequest(b, all[i], hctx);
      if newPayload.Some? {
        payload := newPayload;
        hctx.optimized := newPayload;
      }
      if hctx.shortStatus != 0 && hctx.shortBody.Some? {
        assert Fold(b, all[..i + 1], started) == Run(hctx.View(), payload, true);
        FoldSplit(b, all[..i + 1], all[i + 1..], started);
        StoppedStays(b, all[i + 1..], Run(hctx.View(), payload, true));
        assert all[..i + 1] + all[i + 1..] == all;
        return payload, true;
      }
    }
    assert all[..|all|] == all;
    hctx.final := payload;
    return payload, false;
  }

  method SafeAfterResponse(b: Behaviour, h: Hook, hctx: HookContext) returns (body: Option<Bytes>, failed: bool)
    modifies hctx
    ensures (hctx.View(), body) == Recovered(b.after(h, old(hctx.View())))
  {
    var outcome := b.after(h, hctx.View());
    hctx.Become(outcome.ctx);
    match outcome
    case Returned(_, bytes, f) => return bytes, f;
    case Panicked(_) => return None, true;
  }

  method RunAfterHooks(registry: Registry, b: Behaviour, hctx: HookContext) returns (body: Option<Bytes>)
    requires registry.Valid()
    modifies hctx
    ensures (hctx.View(), body) == FoldAfter(b, SortHooks(registry.hooks), old(hctx.View()))
  {
    var snapshot := registry.GetHooks();
    var all := SortHooks(snapshot);
    ghost var started := hctx.View();
    body := hctx.upstream;
    for i := 0 to |all|
      invariant FoldAfter(b, all[..i], started) == (hctx.View(), body)
    {
      assert all[..i + 1][..i] == all[..i];
      if !b.enabled(all[i], hctx.vk) {
        continue;
      }
      var newBody, failed := SafeAfterResponse(b, all[i], hctx);
      if newBody.Some? {
        body := newBody;
        hctx.upstream := newBody;
      }
    }
    assert all[..|all|] == all;
  }

  // ----- what the pipelines promise ----------------------------------------

  /** Two histories of registrations that leave each name with the same hook make every
      request run the same way. */
  lemma HistoryDoesNotMatter(a: seq<Hook>, x: seq<Op>, b: seq<Hook>, y: seq<Op>, behaviour: Behaviour, ctx: Ctx)
    requires DistinctNames(a) && DistinctNames(b) && ByName(a) == LastOf(x) && ByName(b) == LastOf(y)
             && LastOf(x) == LastOf(y)
    ensures Fold(behaviour, SortHooks(a), Started(ctx)) == Fold(behaviour, SortHooks(b), Started(ctx))
    ensures FoldAfter(behaviour, SortHooks(a), ctx) == FoldAfter(behaviour, SortHooks(b), ctx)
  {
    RegistrationOrderIsForgotten(a, b);
  }

  /** The documented contract "on an error the prior payload is used" is met exactly by
      hooks that return no payload, or the prior one, along with their error. */
  lemma ErrorKeepsPayloadIff(b: Behaviour, h: Hook, r: Run)
    requires !r.stopped && b.enabled(h, r.ctx.vk)
    requires var o := b.before(h, r.ctx); o.Panicked? || o.failed
    ensures Step(b, h, r).payload == r.payload <==>
              var o := b.before(h, r.ctx);
              o.Panicked? || o.bytes == None || o.bytes == r.payload
  {
  }

  /** A hook that always fails open: where it is enabled it errs, panics or just
      declines, returns no payload and leaves the context alone. */
  ghost predicate Inert(b: Behaviour, h: Hook)
  {
    forall ctx: Ctx :: b.enabled(h, ctx.vk) ==> Recovered(b.before(h, ctx)) == (ctx, None)
  }

  ghost predicate InertAfter(b: Behaviour, h: Hook)
  {
    forall ctx: Ctx :: b.enabled(h, ctx.vk) ==> Recovered(b.after(h, ctx)) == (ctx, None)
  }

  function Without(hs: seq<Hook>, bad: Hook -> bool): seq<Hook>
  {
    if |hs| == 0 then []
    else
      var h := hs[|hs| - 1];
      Without(hs[..|hs| - 1], bad) + if bad(h) then [] else [h]
  }

  predicate ShortCircuited(ctx: Ctx)
  {
    ctx.shortStatus != 0 && ctx.shortBody.Some?
  }

  lemma FoldPush(b: Behaviour, hs: seq<Hook>, h: Hook, r: Run)
    ensures Fold(b, hs + [h], r) == Step(b, h, Fold(b, hs, r))
  {
    assert (hs + [h])[..|hs|] == hs;
  }

  lemma {:induction false} StoppedIffShort(b: Behaviour, hs: seq<Hook>, ctx: Ctx)
    requires !ShortCircuited(ctx)
    ensures var r := Fold(b, hs, Started(ctx)); r.stopped || !ShortCircuited(r.ctx)
  {
    if |hs| > 0 {
      StoppedIffShort(b, hs[..|hs| - 1], ctx);
    }
  }

  /** Fail-open for a whole run: the failing hooks might as well not be there. */
  lemma {:induction false} FailingHooksAreInvisible(b: Behaviour, hs: seq<Hook>, bad: Hook -> bool, ctx: Ctx)
    requires !ShortCircuited(ctx) && forall h :: h in hs && bad(h) ==> Inert(b, h)
    ensures Fold(b, hs, Started(ctx)) == Fold(b, Without(hs, bad), Started(ctx))
  {
    if |hs| > 0 {
      var init, h := hs[..|hs| - 1], hs[|hs| - 1];
      assert hs == init + [h] && h in hs && forall x :: x in init ==> x in hs;
      FailingHooksAreInvisible(b, init, bad, ctx);
      if bad(h) {
        StoppedIffShort(b, init, ctx);
        assert Inert(b, h);
        assert Without(hs, bad) == Without(init, bad);
      } else {
        FoldPush(b, Without(init, bad), h, Started(ctx));
      }
    }
  }

  lemma {:induction false} FailingAfterHooksAreInvisible(b: Behaviour, hs: seq<Hook>, bad: Hook -> bool, ctx: Ctx)
    requires forall h :: h in hs && bad(h) ==> InertAfter(b, h)
    ensures FoldAfter(b, hs, ctx) == FoldAfter(b, Without(hs, bad), ctx)
  {
    if |hs| > 0 {
      var init, h := hs[..|hs| - 1], hs[|hs| - 1];
      assert hs == init + [h] && h in hs && forall x :: x in init ==> x in hs;
      FailingAfterHooksAreInvisible(b, init, bad, ctx);
      FoldAfterPush(b, init, h, ctx);
      FoldAfterPush(b, Without(init, bad), h, ctx);
      hide FoldAfter, StepAfter;
      if bad(h) {
        var (c, body) := FoldAfter(b, init, ctx);
        InertStepAfter(b, h, c, body);
        assert Without(hs, bad) == Without(init, bad);
      }
    }
  }

  lemma FoldAfterPush(b: Behaviour, hs: seq<Hook>, h: Hook, ctx: Ctx)
    ensures var (c, body) := FoldAfter(b, hs, ctx); FoldAfter(b, hs + [h], ctx) == StepAfter(b, h, c, body)
  {
    assert (hs + [h])[..|hs|] == hs;
    hide StepAfter;
  }

  lemma InertStepAfter(b: Behaviour, h: Hook, ctx: Ctx, body: Option<Bytes>)
    requires InertAfter(b, h)
    ensures StepAfter(b, h, ctx, body) == (ctx, body)
  {
  }

  lemma {:induction false} WithoutElements(hs: seq<Hook>, bad: Hook -> bool)
    ensures forall h :: h in Without(hs, bad) <==> h in hs && !bad(h)
  {
    if |hs| > 0 {
      var init, h := hs[..|hs| - 1], hs[|hs| - 1];
      assert hs == init + [h];
      WithoutElements(init, bad);
    }
  }

  lemma {:induction false} WithoutHolds(hs: seq<Hook>, bad: Hook -> bool)
    ensures forall h :: h in Without(hs, bad) <==> h in hs && !bad(h)
    ensures InOrder(hs) ==> InOrder(Without(hs, bad))
    ensures DistinctNames(hs) ==> DistinctNames(Without(hs, bad))
  {
    WithoutElements(hs, bad);
    hide Precedes;
    if |hs| > 0 {
      var init, h := hs[..|hs| - 1], hs[|hs| - 1];
      assert hs == init + [h];
      WithoutHolds(init, bad);
      WithoutElements(init, bad);
      var kept := Without(init, bad);
      forall i | 0 <= i < |kept|
        ensures InOrder(hs) ==> Precedes(kept[i], h)
        ensures DistinctNames(hs) ==> kept[i].name != h.name
      {
        assert kept[i] in init;
        var j :| 0 <= j < |init| && init[j] == kept[i];
        assert hs[j] == kept[i] && hs[|init|] == h;
      }
    }
  }

  /** A registry in which some hooks always fail open runs every request and every
      response as if those hooks were not registered. */
  lemma FailOpen(b: Behaviour, hs: seq<Hook>, bad: Hook -> bool, ctx: Ctx)
    requires DistinctNames(hs) && forall h :: h in hs && bad(h) ==> Inert(b, h) && InertAfter(b, h)
    ensures !ShortCircuited(ctx) ==>
              Fold(b, SortHooks(hs), Started(ctx)) == Fold(b, SortHooks(Without(hs, bad)), Started(ctx))
    ensures FoldAfter(b, SortHooks(hs), ctx) == FoldAfter(b, SortHooks(Without(hs, bad)), ctx)
  {
    hide Fold, FoldAfter, SortHooks, Without, InOrder, DistinctNames, Inert, InertAfter;
    SortHooksSorts(hs);
    WithoutHolds(hs, bad);
    SortHooksSorts(Without(hs, bad));
    WithoutHolds(SortHooks(hs), bad);
    OrderIsUnique(Without(SortHooks(hs), bad), SortHooks(Without(hs, bad)));
    FailingAfterHooksAreInvisible(b, SortHooks(hs), bad, ctx);
    if !ShortCircuited(ctx) {
      FailingHooksAreInvisible(b, SortHooks(hs), bad, ctx);
    }
  }

  /** A hook that leaves the payload field of the context to the runner. */
  ghost predicate LeavesPayloadAlone(b: Behaviour, h: Hook)
  {
    forall ctx :: b.before(h, ctx).ctx.optimized == ctx.optimized && b.before(h, ctx).ctx.raw == ctx.raw
  }

  /** What goes upstream is what the last hook saw, when hooks change the payload only
      by returning one: the optimized payload, or the raw one while there is none. */
  lemma {:induction false} PayloadIsWhatHooksSee(b: Behaviour, hs: seq<Hook>, ctx: Ctx)
    requires forall h :: h in hs ==> LeavesPayloadAlone(b, h)
    ensures var r := Fold(b, hs, Started(ctx));
            r.ctx.raw == ctx.raw && r.payload == if r.ctx.optimized.Some? then r.ctx.optimized else r.ctx.raw
  {
    if |hs| > 0 {
      var init, last := hs[..|hs| - 1], hs[|hs| - 1];
      assert hs == init + [last] && last in hs;
      PayloadIsWhatHooksSee(b, init, ctx);
      assert LeavesPayloadAlone(b, last);
    }
  }

  /** A hook that leaves the response field of the context to the runner. */
  ghost predicate LeavesResponseAlone(b: Behaviour, h: Hook)
  {
    forall ctx :: b.after(h, ctx).ctx.upstream == ctx.upstream
  }

  /** What goes back to the client is what the last hook saw as the response. */
  lemma {:induction false} BodyIsWhatHooksSee(b: Behaviour, hs: seq<Hook>, ctx: Ctx)
    requires forall h :: h in hs ==> LeavesResponseAlone(b, h)
    ensures var (c, body) := FoldAfter(b, hs, ctx); body == c.upstream
  {
    if |hs| > 0 {
      var init, last := hs[..|hs| - 1], hs[|hs| - 1];
      assert hs == init + [last] && last in hs;
      BodyIsWhatHooksSee(b, init, ctx);
      assert LeavesResponseAlone(b, last);
    }
  }

  // ----- a run, told hook by hook ------------------------------------------

  function BytesOf(o: Outcome): Option<Bytes>
  {
    if o.Returned? then o.bytes else None
  }

  /** Hook k runs on the context `seen[k]`: it leaves that context, with the payload it
      returned, if any, in place of the old one. */
  ghost predicate Ran(b: Behaviour, h: Hook, seen: Ctx, next: Ctx)
  {
    var o := b.before(h, seen);
    next == match BytesOf(o) case None => o.ctx case Some(bytes) => o.ctx.(optimized := Some(bytes))
  }

  /** The enabled hooks run one after the other, each on what the one before left, until
      one leaves both a status and a body. */
  ghost predicate IsTrace(b: Behaviour, hs: seq<Hook>, ctx: Ctx, seen: seq<Ctx>, ran: seq<bool>)
  {
    && |seen| == |hs| + 1 && |ran| == |hs| && seen[0] == ctx
    && forall k :: 0 <= k < |hs| ==> TraceAt(b, hs[k], seen, ran, k)
  }

  ghost predicate TraceAt(b: Behaviour, h: Hook, seen: seq<Ctx>, ran: seq<bool>, k: int)
    requires 0 <= k < |ran| && |seen| == |ran| + 1
  {
    && (ran[k] <==> b.enabled(h, seen[k].vk) && NotShort(seen, ran, k))
    && if ran[k] then Ran(b, h, seen[k], seen[k + 1]) else seen[k + 1] == seen[k]
  }

  ghost predicate NotShort(seen: seq<Ctx>, ran: seq<bool>, k: int)
    requires 0 <= k <= |ran| && |seen| == |ran| + 1
  {
    forall j :: 0 <= j < k && ran[j] ==> seen[j + 1].shortStatus == 0 || seen[j + 1].shortBody.None?
  }

  /** The payload is the one returned last, or else what the request came with. */
  ghost predicate LastReturned(b: Behaviour, hs: seq<Hook>, seen: seq<Ctx>, ran: seq<bool>, payload: Option<Bytes>)
    requires |seen| == |hs| + 1 && |ran| == |hs|
  {
    || ((forall k :: 0 <= k < |hs| && ran[k] ==> BytesOf(b.before(hs[k], seen[k])).None?)
        && payload == if seen[0].optimized.Some? then seen[0].optimized else seen[0].raw)
    || exists k :: 0 <= k < |hs| && ran[k] && payload.Some? && BytesOf(b.before(hs[k], seen[k])) == payload
         && forall j :: k < j < |hs| && ran[j] ==> BytesOf(b.before(hs[j], seen[j])).None?
  }

  lemma TracePush(b: Behaviour, hs: seq<Hook>, h: Hook, ctx: Ctx, seen: seq<Ctx>, ran: seq<bool>, next: Ctx, runs: bool)
    requires IsTrace(b, hs, ctx, seen, ran)
    requires runs <==> b.enabled(h, seen[|hs|].vk) && NotShort(seen, ran, |hs|)
    requires if runs then Ran(b, h, seen[|hs|], next) else next == seen[|hs|]
    ensures IsTrace(b, hs + [h], ctx, seen + [next], ran + [runs])
    ensures NotShort(seen + [next], ran + [runs], |hs| + 1) <==>
              NotShort(seen, ran, |hs|) && (runs ==> next.shortStatus == 0 || next.shortBody.None?)
  {
    hide Ran;
    var more, seen', ran' := hs + [h], seen + [next], ran + [runs];
    forall k | 0 <= k < |more|
      ensures TraceAt(b, more[k], seen', ran', k)
    {
      NotShortPush(seen, ran, next, runs, k);
      if k < |hs| {
        assert TraceAt(b, hs[k], seen, ran, k);
      }
    }
    NotShortPush(seen, ran, next, runs, |hs|);
    hide NotShort, TraceAt;
    NotShortStep(seen, ran, next, runs);
  }

  lemma NotShortPush(seen: seq<Ctx>, ran: seq<bool>, next: Ctx, runs: bool, k: int)
    requires 0 <= k <= |ran| && |seen| == |ran| + 1
    ensures NotShort(seen + [next], ran + [runs], k) <==> NotShort(seen, ran, k)
  {
    var seen', ran' := seen + [next], ran + [runs];
    assert forall j :: 0 <= j < |ran| ==> ran'[j] == ran[j];
    assert forall j :: 0 <= j < |seen| ==> seen'[j] == seen[j];
  }

  lemma NotShortStep(seen: seq<Ctx>, ran: seq<bool>, next: Ctx, runs: bool)
    requires |seen| == |ran| + 1
    ensures NotShort(seen + [next], ran + [runs], |ran| + 1) <==>
              NotShort(seen, ran, |ran|) && (runs ==> next.shortStatus == 0 || next.shortBody.None?)
  {
    NotShortPush(seen, ran, next, runs, |ran|);
    assert (ran + [runs])[|ran|] == runs && (seen + [next])[|ran| + 1] == next;
  }

  lemma ReturnedPush(b: Behaviour, hs: seq<Hook>, h: Hook, seen: seq<Ctx>, ran: seq<bool>, next: Ctx, runs: bool,
                     payload: Option<Bytes>)
    requires |seen| == |hs| + 1 && |ran| == |hs| && LastReturned(b, hs, seen, ran, payload)
    ensures var bytes := if runs then BytesOf(b.before(h, seen[|hs|])) else None;
            LastReturned(b, hs + [h], seen + [next], ran + [runs], if bytes.Some? then bytes else payload)
  {
    hide BytesOf;
    var more, seen', ran' := hs + [h], seen + [next], ran + [runs];
    assert forall k :: 0 <= k < |hs| ==> more[k] == hs[k] && seen'[k] == seen[k] && ran'[k] == ran[k];
    assert more[|hs|] == h && seen'[|hs|] == seen[|hs|] && ran'[|hs|] == runs && seen'[0] == seen[0];
  }

  /** Every request runs like this, whatever the hooks do. */
  lemma {:induction false} RequestByHook(b: Behaviour, hs: seq<Hook>, ctx: Ctx) returns (seen: seq<Ctx>, ran: seq<bool>)
    ensures IsTrace(b, hs, ctx, seen, ran)
    ensures var r := Fold(b, hs, Started(ctx));
            && r.ctx == seen[|hs|] && (r.stopped <==> !NotShort(seen, ran, |hs|))
            && LastReturned(b, hs, seen, ran, r.payload)
  {
    if |hs| == 0 {
      seen, ran := [ctx], [];
    } else {
      var init, h := hs[..|hs| - 1], hs[|hs| - 1];
      seen, ran := RequestByHook(b, init, ctx);
      var r := Fold(b, init, Started(ctx));
      var runs := b.enabled(h, r.ctx.vk) && !r.stopped;
      var next := Step(b, h, r).ctx;
      assert hs == init + [h];
      hide IsTrace, NotShort, LastReturned, Fold;
      assert |seen| == |init| + 1 by { TraceLength(b, init, ctx, seen, ran); }
      TracePush(b, init, h, ctx, seen, ran, next, runs);
      ReturnedPush(b, init, h, seen, ran, next, runs, r.payload);
      FoldPush(b, init, h, Started(ctx));
      seen, ran := seen + [next], ran + [runs];
    }
  }

  lemma TraceLength(b: Behaviour, hs: seq<Hook>, ctx: Ctx, seen: seq<Ctx>, ran: seq<bool>)
    requires IsTrace(b, hs, ctx, seen, ran)
    ensures |seen| == |hs| + 1 && |ran| == |hs|
  {
  }

  /** And every response: all enabled hooks run, each on what the one before left with the
      body it returned, if any, as the response; the last body returned is the answer. */
  ghost predicate IsResponseTrace(b: Behaviour, hs: seq<Hook>, seen: seq<Ctx>)
  {
    |seen| == |hs| + 1 && forall k :: 0 <= k < |hs| ==> Answers(b, hs[k], seen, k)
  }

  ghost predicate Answers(b: Behaviour, h: Hook, seen: seq<Ctx>, k: int)
    requires 0 <= k && k + 1 < |seen|
  {
    var o := b.after(h, seen[k]);
    seen[k + 1] == if !b.enabled(h, seen[k].vk) then seen[k]
                   else match BytesOf(o) case None => o.ctx case Some(bytes) => o.ctx.(upstream := Some(bytes))
  }

  ghost predicate LastBody(b: Behaviour, hs: seq<Hook>, seen: seq<Ctx>, body: Option<Bytes>)
    requires |seen| == |hs| + 1
  {
    || (body == seen[0].upstream && forall k :: 0 <= k < |hs| ==> AfterBytes(b, hs[k], seen[k]).None?)
    || exists k :: 0 <= k < |hs| && body.Some? && AfterBytes(b, hs[k], seen[k]) == body
         && forall j :: k < j < |hs| ==> AfterBytes(b, hs[j], seen[j]).None?
  }

  function AfterBytes(b: Behaviour, h: Hook, seen: Ctx): Option<Bytes>
  {
    if b.enabled(h, seen.vk) then BytesOf(b.after(h, seen)) else None
  }

  lemma {:induction false} ResponseByHook(b: Behaviour, hs: seq<Hook>, ctx: Ctx) returns (seen: seq<Ctx>)
    ensures IsResponseTrace(b, hs, seen) && seen[0] == ctx
    ensures var (c, body) := FoldAfter(b, hs, ctx); c == seen[|hs|] && LastBody(b, hs, seen, body)
  {
    if |hs| == 0 {
      seen := [ctx];
    } else {
      var init, h := hs[..|hs| - 1], hs[|hs| - 1];
      var before := ResponseByHook(b, init, ctx);
      var (c, body) := FoldAfter(b, init, ctx);
      var next := StepAfter(b, h, c, body).0;
      seen := before + [next];
      BodyPush(b, init, h, before, next, body);
      assert hs == init + [h];
      FoldAfterPush(b, init, h, ctx);
      hide LastBody, FoldAfter;
      ResponsePush(b, init, h, before, next);
    }
  }

  lemma ResponsePush(b: Behaviour, hs: seq<Hook>, h: Hook, seen: seq<Ctx>, next: Ctx)
    requires IsResponseTrace(b, hs, seen) && Answers(b, h, [seen[|hs|], next], 0)
    ensures IsResponseTrace(b, hs + [h], seen + [next])
  {
    var more, seen' := hs + [h], seen + [next];
    forall k | 0 <= k < |more|
      ensures Answers(b, more[k], seen', k)
    {
      if k < |hs| {
        assert Answers(b, hs[k], seen, k);
      }
    }
  }

  lemma BodyPush(b: Behaviour, hs: seq<Hook>, h: Hook, seen: seq<Ctx>, next: Ctx, body: Option<Bytes>)
    requires |seen| == |hs| + 1 && LastBody(b, hs, seen, body)
    ensures var bytes := AfterBytes(b, h, seen[|hs|]);
            LastBody(b, hs + [h], seen + [next], if bytes.Some? then bytes else body)
  {
    hide AfterBytes;
    var more, seen' := hs + [h], seen + [next];
    assert forall k :: 0 <= k < |hs| ==> more[k] == hs[k] && seen'[k] == seen[k];
    assert more[|hs|] == h && seen'[|hs|] == seen[|hs|] && seen'[0] == seen[0];
  }
}
