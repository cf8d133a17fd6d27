/** What a refresh cycle promises, proved against a reference that reads every
    measurement afresh for every item and so has no cache at all. */
module CycleProperties {
  import opened Wrappers
  import opened Constants
  import opened Configuration
  import opened Client
  import opened Cycle
  import Provider

  /** The read an item asks for: none when the registry does not know the
      item or its binding string is not one of the six tokens. */
  function NeedOf<S>(ctx: Ctx<S>, e: Entry<S>): seq<Request> {
    if e.current.None? then []
    else
      match KindOf(e.binding)
      case None => []
      case Some(kind) => [RequestFor(ctx, kind)]
  }

  /** The reads the items ask for, in item order, repeats included. */
  function Needs<S>(ctx: Ctx<S>, items: seq<Entry<S>>): seq<Request>
    decreases |items|
  {
    if items == [] then [] else NeedOf(ctx, items[0]) + Needs(ctx, items[1..])
  }

  /** The updates an item gets when its measurement is read just for it. */
  function Expected<S(==)>(ctx: Ctx<S>, e: Entry<S>): seq<Update<S>> {
    if e.current.None? then []
    else
      match KindOf(e.binding)
      case None => []
      case Some(kind) => Decide(ctx.env.render, e, kind, Read(ctx.env, RequestFor(ctx, kind)))
  }

  function ExpectedAll<S(==)>(ctx: Ctx<S>, items: seq<Entry<S>>): seq<Update<S>>
    decreases |items|
  {
    if items == [] then [] else Expected(ctx, items[0]) + ExpectedAll(ctx, items[1..])
  }

  function Elements(s: seq<Request>): set<Request> {
    set q | q in s
  }

  lemma ElementsAppend(a: seq<Request>, b: seq<Request>)
    ensures Elements(a + b) == Elements(a) + Elements(b)
  {
  }

  /** The elements of `s` that are not in `seen`, each at its first
      occurrence. */
  function FirstOccurrences(seen: set<Request>, s: seq<Request>): (r: seq<Request>)
    ensures forall q :: q in r <==> q in s && q !in seen
    ensures forall i, j :: 0 <= i < j < |r| ==> r[i] != r[j]
    decreases |s|
  {
    if s == [] then []
    else if s[0] in seen then FirstOccurrences(seen, s[1..])
    else [s[0]] + FirstOccurrences(seen + {s[0]}, s[1..])
  }

  lemma {:induction false} FirstOccurrencesAppend(seen: set<Request>, a: seq<Request>, b: seq<Request>)
    ensures FirstOccurrences(seen, a + b)
         == FirstOccurrences(seen, a) + FirstOccurrences(seen + Elements(a), b)
    decreases |a|
  {
    if a == [] {
      assert a + b == b;
      assert Elements(a) == {};
      assert seen + Elements(a) == seen;
    } else {
      assert (a + b)[0] == a[0];
      assert (a + b)[1..] == a[1..] + b;
      var seen' := if a[0] in seen then seen else seen + {a[0]};
      FirstOccurrencesAppend(seen', a[1..], b);
      assert seen' + Elements(a[1..]) == seen + Elements(a);
    }
  }

  /** Every cached measurement is the one its read returns. */
  ghost predicate Coherent<S>(env: Env<S>, cache: Cache) {
    forall q :: q in cache ==> cache[q] == Read(env, q)
  }

  lemma VisitMatchesReference<S>(ctx: Ctx<S>, cache: Cache, e: Entry<S>)
    requires Coherent(ctx.env, cache)
    ensures Visit(ctx, cache, e).updates == Expected(ctx, e)
    ensures Visit(ctx, cache, e).requests == FirstOccurrences(cache.Keys, NeedOf(ctx, e))
    ensures Visit(ctx, cache, e).cache.Keys == cache.Keys + Elements(NeedOf(ctx, e))
    ensures Coherent(ctx.env, Visit(ctx, cache, e).cache)
  {
  }

  /** The cache is invisible: walking the items through it posts exactly the
      updates of the cache-free reference, and sends each read the items ask
      for once, at the first item that asks for it, unless it was cached
      already. */
  lemma {:induction false} PollMatchesReference<S>(ctx: Ctx<S>, cache: Cache, items: seq<Entry<S>>)
    requires Coherent(ctx.env, cache)
    ensures Poll(ctx, cache, items).updates == ExpectedAll(ctx, items)
    ensures Poll(ctx, cache, items).requests == FirstOccurrences(cache.Keys, Needs(ctx, items))
    ensures Poll(ctx, cache, items).cache.Keys == cache.Keys + Elements(Needs(ctx, items))
    ensures Coherent(ctx.env, Poll(ctx, cache, items).cache)
    decreases |items|
  {
    if items != [] {
      var first := Visit(ctx, cache, items[0]);
      var rest := Poll(ctx, first.cache, items[1..]);
      assert Poll(ctx, cache, items) == Pass(rest.cache, first.requests + rest.requests, first.updates + rest.updates);
      assert Needs(ctx, items) == NeedOf(ctx, items[0]) + Needs(ctx, items[1..]);
      VisitMatchesReference(ctx, cache, items[0]);
      PollMatchesReference(ctx, first.cache, items[1..]);
      FirstOccurrencesAppend(cache.Keys, NeedOf(ctx, items[0]), Needs(ctx, items[1..]));
      ElementsAppend(NeedOf(ctx, items[0]), Needs(ctx, items[1..]));
    }
  }

  /** The walk context of a cycle that got past the login. */
  function WalkCtx<S>(settings: Settings, token: string, env: Env<S>): Ctx<S> {
    Ctx(token, settings.offset, env)
  }

  /** A cycle that has a token sends the login request (if it needed one) and
      then the reads the items ask for, each once, in order of first need; it
      posts exactly the updates of the cache-free reference. */
  lemma ExecuteMatchesReference<S>(settings: Settings, token: string, items: seq<Entry<S>>, env: Env<S>)
    ensures var r := Execute(settings, token, true, items, env);
      r.token != "" ==>
        && r.requests == LoginRequests(settings, token) + FirstOccurrences({}, Needs(WalkCtx(settings, r.token, env), items))
        && r.updates == ExpectedAll(WalkCtx(settings, r.token, env), items)
  {
    var r := Execute(settings, token, true, items, env);
    if r.token != "" {
      PollMatchesReference(WalkCtx(settings, r.token, env), map[], items);
      var empty: Cache := map[];
      assert empty.Keys == {};
    }
  }

  lemma {:induction false} NeedsContent<S>(ctx: Ctx<S>, items: seq<Entry<S>>, q: Request)
    ensures q in Needs(ctx, items) <==> exists k :: 0 <= k < |items| && q in NeedOf(ctx, items[k])
    decreases |items|
  {
    if items != [] {
      NeedsContent(ctx, items[1..], q);
      if q in Needs(ctx, items[1..]) {
        var k :| 0 <= k < |items[1..]| && q in NeedOf(ctx, items[1..][k]);
        assert q in NeedOf(ctx, items[k + 1]);
      }
      if exists k :: 0 <= k < |items| && q in NeedOf(ctx, items[k]) {
        var k :| 0 <= k < |items| && q in NeedOf(ctx, items[k]);
        if k > 0 {
          assert items[1..][k - 1] == items[k];
        }
      }
    }
  }

  /** Within one cycle no request is sent twice: one login at most, one
      instant read at most, one energy read per period at most, however many
      items ask and even when a read fails. */
  lemma ReadsAtMostOnce<S>(settings: Settings, token: string, bindingsExist: bool, items: seq<Entry<S>>, env: Env<S>)
    ensures var r := Execute(settings, token, bindingsExist, items, env);
      && (forall i, j :: 0 <= i < j < |r.requests| && r.requests[i].GetInstant? ==> !r.requests[j].GetInstant?)
      && (forall i, j :: 0 <= i < j < |r.requests| && r.requests[i].GetEnergy? && r.requests[j].GetEnergy?
            ==> r.requests[i].period != r.requests[j].period)
  {
  }

  /** A read is sent in a cycle with bindings exactly when the cycle gets a
      token and some item asks for that read. */
  lemma ReadSent<S>(settings: Settings, token: string, items: seq<Entry<S>>, env: Env<S>, q: Request)
    requires !q.GetToken?
    ensures var r := Execute(settings, token, true, items, env);
      q in r.requests <==>
        r.token != "" && exists k :: 0 <= k < |items| && q in NeedOf(WalkCtx(settings, r.token, env), items[k])
  {
    var r := Execute(settings, token, true, items, env);
    if r.token != "" {
      var ctx := WalkCtx(settings, r.token, env);
      ExecuteMatchesReference(settings, token, items, env);
      NeedsContent(ctx, items, q);
      assert q in r.requests <==> q in FirstOccurrences({}, Needs(ctx, items));
    }
  }

  lemma NeedOfInstant<S>(ctx: Ctx<S>, e: Entry<S>)
    ensures GetInstant(ctx.token) in NeedOf(ctx, e) <==>
      e.current.Some? && (e.binding == InstantToken || e.binding == LastMeasurementToken)
  {
  }

  lemma NeedOfEnergy<S>(ctx: Ctx<S>, e: Entry<S>, p: Period)
    ensures GetEnergy(ctx.token, p, ctx.offset) in NeedOf(ctx, e) <==>
      e.current.Some? && e.binding == TokenOf(Total(p))
  {
    KindTokenRoundTrip(Total(p));
  }

  /** The instant is read in a cycle exactly when the cycle gets a token and
      some item the registry knows is bound as `instant` or `lastmeasurement`. */
  lemma InstantReadIff<S>(settings: Settings, token: string, bindingsExist: bool, items: seq<Entry<S>>, env: Env<S>)
    ensures var r := Execute(settings, token, bindingsExist, items, env);
      (exists i :: 0 <= i < |r.requests| && r.requests[i].GetInstant?)
      <==>
      (bindingsExist && r.token != ""
        && exists k :: 0 <= k < |items| && items[k].current.Some?
             && (items[k].binding == InstantToken || items[k].binding == LastMeasurementToken))
  {
    var r := Execute(settings, token, bindingsExist, items, env);
    if bindingsExist {
      var q := GetInstant(r.token);
      var ctx := WalkCtx(settings, r.token, env);
      ReadSent(settings, token, items, env, q);
      assert (exists i :: 0 <= i < |r.requests| && r.requests[i].GetInstant?) <==> q in r.requests by {
        if exists i :: 0 <= i < |r.requests| && r.requests[i].GetInstant? {
          var i :| 0 <= i < |r.requests| && r.requests[i].GetInstant?;
          assert r.requests[i] in r.requests;
        }
      }
      forall k | 0 <= k < |items|
        ensures q in NeedOf(ctx, items[k]) <==>
          items[k].current.Some? && (items[k].binding == InstantToken || items[k].binding == LastMeasurementToken)
      {
        NeedOfInstant(ctx, items[k]);
      }
    }
  }

  /** The energy of a period is read in a cycle exactly when the cycle gets a
      token and some item the registry knows is bound to that period's total. */
  lemma EnergyReadIff<S>(settings: Settings, token: string, bindingsExist: bool, items: seq<Entry<S>>, env: Env<S>, p: Period)
    ensures var r := Execute(settings, token, bindingsExist, items, env);
      (exists i :: 0 <= i < |r.requests| && r.requests[i].GetEnergy? && r.requests[i].period == p)
      <==>
      (bindingsExist && r.token != ""
        && exists k :: 0 <= k < |items| && items[k].current.Some? && items[k].binding == TokenOf(Total(p)))
  {
    var r := Execute(settings, token, bindingsExist, items, env);
    if bindingsExist {
      var q := GetEnergy(r.token, p, settings.offset);
      var ctx := WalkCtx(settings, r.token, env);
      ReadSent(settings, token, items, env, q);
      assert (exists i :: 0 <= i < |r.requests| && r.requests[i].GetEnergy? && r.requests[i].period == p)
             <==> q in r.requests by {
        if exists i :: 0 <= i < |r.requests| && r.requests[i].GetEnergy? && r.requests[i].period == p {
          var i :| 0 <= i < |r.requests| && r.requests[i].GetEnergy? && r.requests[i].period == p;
          assert r.requests[i] in r.requests;
        }
      }
      forall k | 0 <= k < |items|
        ensures q in NeedOf(ctx, items[k]) <==> items[k].current.Some? && items[k].binding == TokenOf(Total(p))
      {
        NeedOfEnergy(ctx, items[k], p);
      }
    }
  }

  /** An item that takes part in the walk: known to the registry and bound
      with one of the six tokens. */
  predicate Relevant<S>(e: Entry<S>) {
    e.current.Some? && KindOf(e.binding).Some?
  }

  function RelevantOnly<S>(items: seq<Entry<S>>): (r: seq<Entry<S>>)
    ensures |r| <= |items|
    ensures forall k :: 0 <= k < |r| ==> r[k] in items && Relevant(r[k])
    ensures forall k :: 0 <= k < |items| && Relevant(items[k]) ==> items[k] in r
    decreases |items|
  {
    if items == [] then []
    else if Relevant(items[0]) then [items[0]] + RelevantOnly(items[1..])
    else RelevantOnly(items[1..])
  }

  lemma {:induction false} PollSkipsIrrelevant<S>(ctx: Ctx<S>, cache: Cache, items: seq<Entry<S>>)
    ensures Poll(ctx, cache, items) == Poll(ctx, cache, RelevantOnly(items))
    decreases |items|
  {
    if items != [] {
      var first := Visit(ctx, cache, items[0]);
      var rest := Poll(ctx, first.cache, items[1..]);
      assert Poll(ctx, cache, items) == Pass(rest.cache, first.requests + rest.requests, first.updates + rest.updates);
      PollSkipsIrrelevant(ctx, first.cache, items[1..]);
      if Relevant(items[0]) {
        var kept := RelevantOnly(items);
        assert kept == [items[0]] + RelevantOnly(items[1..]);
        assert kept[0] == items[0] && kept[1..] == RelevantOnly(items[1..]);
        assert Poll(ctx, cache, kept) == Pass(rest.cache, first.requests + rest.requests, first.updates + rest.updates);
      } else {
        assert first == Pass(cache, [], []);
        assert RelevantOnly(items) == RelevantOnly(items[1..]);
        assert first.requests + rest.requests == rest.requests;
        assert first.updates + rest.updates == rest.updates;
        PollSkipsIrrelevant(ctx, cache, items[1..]);
      }
    }
  }

  /** An item missing from the registry, or bound with an unrecognised string,
      neither fetched nor posts anything, and the walk goes on past it: the
      cycle is the same with such items removed. */
  lemma IrrelevantItemsAreInert<S>(settings: Settings, token: string, bindingsExist: bool, items: seq<Entry<S>>, env: Env<S>)
    ensures Execute(settings, token, bindingsExist, items, env)
         == Execute(settings, token, bindingsExist, RelevantOnly(items), env)
  {
    var r := Execute(settings, token, bindingsExist, items, env);
    if bindingsExist && r.token != "" {
      PollSkipsIrrelevant(WalkCtx(settings, r.token, env), map[], items);
    }
  }

  /** The registry state an update leaves for `name`: the last one posted to
      it. */
  function LastFor<S>(name: string, updates: seq<Update<S>>): (r: Option<S>)
    ensures r.Some? ==> Update(name, r.value) in updates
    ensures r.None? <==> forall i :: 0 <= i < |updates| ==> updates[i].item != name
    decreases |updates|
  {
    if updates == [] then None
    else if updates[|updates| - 1].item == name then Some(updates[|updates| - 1].state)
    else LastFor(name, updates[..|updates| - 1])
  }

  lemma {:induction false} LastForAppend<S>(name: string, a: seq<Update<S>>, b: seq<Update<S>>)
    ensures LastFor(name, a + b) == if LastFor(name, b).Some? then LastFor(name, b) else LastFor(name, a)
    decreases |b|
  {
    if b == [] {
      assert a + b == a;
    } else {
      assert (a + b)[..|a + b| - 1] == a + b[..|b| - 1];
      LastForAppend(name, a, b[..|b| - 1]);
    }
  }

  /** Item registry states after a cycle's updates were delivered: an item the
      registry knows takes the last state posted to it. */
  function Settle<S>(items: seq<Entry<S>>, updates: seq<Update<S>>): (r: seq<Entry<S>>)
    ensures |r| == |items|
    ensures forall k :: 0 <= k < |items| ==>
      r[k].name == items[k].name && r[k].binding == items[k].binding
      && r[k].current.Some? == items[k].current.Some?
  {
    seq(|items|, k requires 0 <= k < |items| =>
      var e := items[k];
      if e.current.Some? && LastFor(e.name, updates).Some? then e.(current := LastFor(e.name, updates)) else e)
  }

  predicate DistinctNames<S>(items: seq<Entry<S>>) {
    forall i, j :: 0 <= i < j < |items| ==> items[i].name != items[j].name
  }

  lemma {:induction false} ExpectedAllNames<S>(ctx: Ctx<S>, items: seq<Entry<S>>, u: Update<S>)
    requires u in ExpectedAll(ctx, items)
    ensures exists k :: 0 <= k < |items| && u in Expected(ctx, items[k])
    decreases |items|
  {
    if u in Expected(ctx, items[0]) {
      assert 0 < |items|;
    } else {
      ExpectedAllNames(ctx, items[1..], u);
      var k :| 0 <= k < |items[1..]| && u in Expected(ctx, items[1..][k]);
      assert items[1..][k] == items[k + 1];
    }
  }

  /** The reference posts nothing to a name no item carries. */
  lemma NoUpdatesFor<S>(ctx: Ctx<S>, items: seq<Entry<S>>, name: string)
    requires forall j :: 0 <= j < |items| ==> items[j].name != name
    ensures LastFor(name, ExpectedAll(ctx, items)) == None
  {
    var all := ExpectedAll(ctx, items);
    forall i | 0 <= i < |all|
      ensures all[i].item != name
    {
      ExpectedAllNames(ctx, items, all[i]);
    }
  }

  lemma DistinctNamesTail<S>(items: seq<Entry<S>>)
    requires items != [] && DistinctNames(items)
    ensures DistinctNames(items[1..])
    ensures forall j :: 0 <= j < |items[1..]| ==> items[1..][j].name != items[0].name
  {
    var rest := items[1..];
    forall i, j | 0 <= i < j < |rest|
      ensures rest[i].name != rest[j].name
    {
      assert rest[i] == items[i + 1] && rest[j] == items[j + 1];
    }
    forall j | 0 <= j < |rest|
      ensures rest[j].name != items[0].name
    {
      assert rest[j] == items[j + 1];
    }
  }

  /** With distinct item names, the last update the reference posts to an
      item is the one it posts for that item itself. */
  lemma {:induction false} LastForExpectedAll<S>(ctx: Ctx<S>, items: seq<Entry<S>>, k: int)
    requires DistinctNames(items) && 0 <= k < |items|
    ensures LastFor(items[k].name, ExpectedAll(ctx, items)) == LastFor(items[k].name, Expected(ctx, items[k]))
    decreases |items|
  {
    var name := items[k].name;
    var rest := items[1..];
    assert ExpectedAll(ctx, items) == Expected(ctx, items[0]) + ExpectedAll(ctx, rest);
    LastForAppend(name, Expected(ctx, items[0]), ExpectedAll(ctx, rest));
    DistinctNamesTail(items);
    if k == 0 {
      NoUpdatesFor(ctx, rest, name);
    } else {
      assert rest[k - 1] == items[k];
      LastForExpectedAll(ctx, rest, k - 1);
      assert LastFor(name, Expected(ctx, items[0])) == None;
    }
  }

  /** The items bound as `lastmeasurement`. */
  function LastMeasurementItems<S>(items: seq<Entry<S>>): set<string> {
    set k | 0 <= k < |items| && items[k].binding == LastMeasurementToken :: items[k].name
  }

  /** Walking settled items again with the same readings posts only the
      `lastmeasurement` items. */
  lemma QuietWalk<S>(ctx: Ctx<S>, items: seq<Entry<S>>)
    requires DistinctNames(items)
    ensures var again := ExpectedAll(ctx, Settle(items, ExpectedAll(ctx, items)));
      forall i :: 0 <= i < |again| ==> again[i].item in LastMeasurementItems(items)
  {
    var settled := Settle(items, ExpectedAll(ctx, items));
    var again := ExpectedAll(ctx, settled);
    forall i | 0 <= i < |again|
      ensures again[i].item in LastMeasurementItems(items)
    {
      var u := again[i];
      ExpectedAllNames(ctx, settled, u);
      var k :| 0 <= k < |settled| && u in Expected(ctx, settled[k]);
      SettledItemQuiet(ctx, items, k);
      assert u.item == settled[k].name;
    }
  }

  /** Once a cycle's updates have reached the registry, the next cycle over
      unchanged readings sends the same reads with the same token, no login,
      and posts only the `lastmeasurement` items: every other kind finds its
      state unchanged. */
  lemma QuietSecondCycle<S>(settings: Settings, token: string, items: seq<Entry<S>>, env: Env<S>)
    requires DistinctNames(items)
    requires Execute(settings, token, true, items, env).token != ""
    ensures var first := Execute(settings, token, true, items, env);
      var second := Execute(settings, first.token, true, Settle(items, first.updates), env);
      && second.token == first.token
      && first.requests == LoginRequests(settings, token) + second.requests
      && forall i :: 0 <= i < |second.updates| ==> second.updates[i].item in LastMeasurementItems(items)
  {
    var first := Execute(settings, token, true, items, env);
    var ctx := WalkCtx(settings, first.token, env);
    var settled := Settle(items, first.updates);
    var second := Execute(settings, first.token, true, settled, env);
    assert second.token == first.token;
    ExecuteMatchesReference(settings, token, items, env);
    assert first.updates == ExpectedAll(ctx, items);
    ExecuteMatchesReference(settings, first.token, settled, env);
    assert second.updates == ExpectedAll(ctx, settled);
    assert second.requests == FirstOccurrences({}, Needs(ctx, settled));
    NeedsOfSettled(ctx, items, first.updates);
    QuietWalk(ctx, items);
  }

  lemma {:induction false} NeedsOfSettled<S>(ctx: Ctx<S>, items: seq<Entry<S>>, updates: seq<Update<S>>)
    ensures Needs(ctx, Settle(items, updates)) == Needs(ctx, items)
    decreases |items|
  {
    if items != [] {
      var settled := Settle(items, updates);
      assert settled[1..] == Settle(items[1..], updates);
      NeedsOfSettled(ctx, items[1..], updates);
    }
  }

  /** An item settled after a cycle posts in the next cycle only if it is
      bound as `lastmeasurement`. */
  lemma SettledItemQuiet<S>(ctx: Ctx<S>, items: seq<Entry<S>>, k: int)
    requires DistinctNames(items) && 0 <= k < |items|
    ensures var settled := Settle(items, ExpectedAll(ctx, items));
      Expected(ctx, settled[k]) != [] ==> items[k].binding == LastMeasurementToken && settled[k].name in LastMeasurementItems(items)
  {
    var e := items[k];
    var settled := Settle(items, ExpectedAll(ctx, items));
    LastForExpectedAll(ctx, items, k);
    if e.current.Some? && KindOf(e.binding).Some? && e.binding != LastMeasurementToken {
      var kind := KindOf(e.binding).value;
      var state := Rendered(ctx.env.render, kind, Read(ctx.env, RequestFor(ctx, kind)));
      assert settled[k].current == Some(state);
    }
  }

  /** A sequence of cycles, each with its own configuration, bindings, items
      and server. */
  datatype Tick<S> = Tick(settings: Settings, bindingsExist: bool, items: seq<Entry<S>>, env: Env<S>)

  function TokenAfter<S(==)>(token: string, ticks: seq<Tick<S>>): string
    decreases |ticks|
  {
    if ticks == [] then token
    else
      var t := ticks[0];
      TokenAfter(Execute(t.settings, token, t.bindingsExist, t.items, t.env).token, ticks[1..])
  }

  /** The token is assigned only by a successful login, and a login happens
      only without a token: once a cycle holds a token, every later cycle
      keeps exactly that token. */
  lemma {:induction false} TokenSticks<S>(token: string, ticks: seq<Tick<S>>)
    requires token != ""
    ensures TokenAfter(token, ticks) == token
    decreases |ticks|
  {
    if ticks != [] {
      TokenSticks(token, ticks[1..]);
    }
  }

  /** The entries a provider hands to the item walk: each item name with the
      binding string `getItemType` returns for it and its registry state. */
  function EntriesOf<S>(reg: Provider.Registry, names: seq<string>, registry: string -> Option<S>): seq<Entry<S>>
    requires forall k :: 0 <= k < |names| ==> names[k] in reg
  {
    seq(|names|, k requires 0 <= k < |names| =>
      Entry(names[k], Provider.GetItemType(reg, names[k]).value, registry(names[k])))
  }

  /** For a registry filled through declarations, the only items the walk
      skips are those the item registry does not know. */
  lemma DeclaredItemsSkippedOnlyWhenMissing<S>(reg: Provider.Registry, names: seq<string>, registry: string -> Option<S>)
    requires forall k :: 0 <= k < |names| ==> names[k] in reg
    requires Provider.WellBound(reg)
    ensures var entries := EntriesOf(reg, names, registry);
      forall k :: 0 <= k < |entries| ==> (Relevant(entries[k]) <==> registry(names[k]).Some?)
  {
  }
}
