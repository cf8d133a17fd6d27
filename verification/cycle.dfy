/** One refresh cycle of the binding (`execute`): log in when there is no
    token, then walk the bound items in order, read each measurement at most
    once, and post an update per item under the change-detection rule of its
    kind. The server, the item registry and the event bus are inputs and
    outputs of a pure step function. */
module Cycle {
  import opened Wrappers
  import opened Constants
  import opened Configuration
  import opened Client

  /** A request the cycle sends to the server, with the query parameters that
      vary. */
  datatype Request =
    | GetToken(email: Option<string>, password: Option<string>)
    | GetInstant(token: string)
    | GetEnergy(token: string, period: Period, offset: string)

  /** The server's answers: to a login with given e-mail and password, to an
      instant read with a token, and to an energy read with token, period name
      and offset. */
  datatype Server = Server(
    login: (Option<string>, Option<string>) -> Response,
    instant: string -> Response,
    energy: (string, string, string) -> Response)

  /** How a measurement becomes an item state of type `S`: `DecimalType` of
      the value, `DateTimeType` of the timestamp, and `StringType` of the value
      and unit joined by a blank. */
  datatype Renderers<S> = Renderers(
    decimal: Measurement -> S,
    dateTime: Measurement -> S,
    text: Measurement -> S)

  /** Everything outside the binding that a cycle consults. */
  datatype Env<S> = Env(server: Server, conv: Conversions, render: Renderers<S>)

  /** One bound item as the cycle meets it: its name, its binding string, and
      its state in the item registry (`None` when the registry does not know
      the item). */
  datatype Entry<S> = Entry(name: string, binding: string, current: Option<S>)

  /** An `eventPublisher.postUpdate(item, state)`. */
  datatype Update<S> = Update(item: string, state: S)

  /** What a cycle leaves behind: the token, the requests sent in order, and
      the updates posted in order. */
  datatype Outcome<S> = Outcome(token: string, requests: seq<Request>, updates: seq<Update<S>>)

  /** The fixed parameters of the item walk. */
  datatype Ctx<S> = Ctx(token: string, offset: string, env: Env<S>)

  /** The local measurement variables of `execute` (`instant`, `dayTotal`,
      ..., `yearTotal`), keyed by the read that filled them; a key that is
      absent is a variable still `null`. */
  type Cache = map<Request, Measurement>

  /** The read an item of a kind needs. */
  function RequestFor<S>(ctx: Ctx<S>, kind: Kind): (q: Request)
    ensures q.GetInstant? <==> kind == Instant || kind == LastMeasurement
    ensures q.GetEnergy? <==> kind.Total?
    ensures q.GetEnergy? ==> q.period == kind.period && q.offset == ctx.offset
    ensures !q.GetToken? && q.token == ctx.token
  {
    match kind
    case Total(p) => GetEnergy(ctx.token, p, ctx.offset)
    case _ => GetInstant(ctx.token)
  }

  /** A read request sent with the walk's token and offset. */
  predicate IsReadIn<S>(ctx: Ctx<S>, q: Request) {
    !q.GetToken? && q.token == ctx.token && (q.GetEnergy? ==> q.offset == ctx.offset)
  }

  /** The measurement a read returns. A read always returns a measurement:
      on failure it is the unset default. */
  function Read<S>(env: Env<S>, q: Request): Measurement {
    match q
    case GetInstant(t) => ReadInstant(env.server.instant(t), env.conv)
    case GetEnergy(t, p, o) => ReadEnergy(env.server.energy(t, PeriodName(p), o), env.conv)
    case GetToken(_, _) => Unset
  }

  /** The state an item of a kind is given. */
  function Rendered<S>(render: Renderers<S>, kind: Kind, m: Measurement): S {
    match kind
    case Instant => render.decimal(m)
    case LastMeasurement => render.dateTime(m)
    case Total(_) => render.text(m)
  }

  /** The change-detection rule: the instant and the four totals are posted
      only when the new state differs from the item's current one; the last
      measurement time is posted every time. */
  function Decide<S(==)>(render: Renderers<S>, e: Entry<S>, kind: Kind, m: Measurement): (u: seq<Update<S>>)
    requires e.current.Some?
    ensures |u| <= 1
    ensures u != [] ==> u[0] == Update(e.name, Rendered(render, kind, m))
    ensures kind == LastMeasurement ==> u != []
    ensures kind != LastMeasurement ==> (u != [] <==> e.current.value != Rendered(render, kind, m))
  {
    var state := Rendered(render, kind, m);
    match kind
    case LastMeasurement => [Update(e.name, state)]
    case _ => if e.current.value != state then [Update(e.name, state)] else []
  }

  /** The result of walking part of the item list. */
  datatype Pass<S> = Pass(cache: Cache, requests: seq<Request>, updates: seq<Update<S>>)

  /** One iteration of the item loop. An item the registry does not know, or
      one with a binding string that is none of the six tokens, does nothing.
      Otherwise its measurement is taken from the cache, or read and cached. */
  function Visit<S(==)>(ctx: Ctx<S>, cache: Cache, e: Entry<S>): (r: Pass<S>)
    ensures cache.Keys <= r.cache.Keys
    ensures |r.requests| <= 1 && |r.updates| <= 1
    ensures forall q :: q in r.requests ==> q !in cache && q in r.cache && IsReadIn(ctx, q)
    ensures r.cache.Keys <= cache.Keys + set q | q in r.requests
  {
    if e.current.None? then Pass(cache, [], [])
    else
      match KindOf(e.binding)
      case None => Pass(cache, [], [])
      case Some(kind) =>
        var q := RequestFor(ctx, kind);
        if q in cache then Pass(cache, [], Decide(ctx.env.render, e, kind, cache[q]))
        else
          var m := Read(ctx.env, q);
          Pass(cache[q := m], [q], Decide(ctx.env.render, e, kind, m))
  }

  /** The item loop of `execute`, over the items of all providers in order. */
  function Poll<S(==)>(ctx: Ctx<S>, cache: Cache, items: seq<Entry<S>>): (r: Pass<S>)
    ensures cache.Keys <= r.cache.Keys
    ensures forall q :: q in r.requests ==> q !in cache && q in r.cache && IsReadIn(ctx, q)
    ensures forall i, j :: 0 <= i < j < |r.requests| ==> r.requests[i] != r.requests[j]
    decreases |items|
  {
    if items == [] then Pass(cache, [], [])
    else
      var first := Visit(ctx, cache, items[0]);
      var rest := Poll(ctx, first.cache, items[1..]);
      Pass(rest.cache, first.requests + rest.requests, first.updates + rest.updates)
  }

  /** The login request of a cycle, sent only when there is no token. */
  function LoginRequests(settings: Settings, token: string): seq<Request> {
    if token == "" then [GetToken(settings.email, settings.password)] else []
  }

  /** `execute`. Without bindings nothing happens. Without a token the cycle
      logs in once and gives up if there is still no token. Then every item is
      visited with a fresh cache. */
  function Execute<S(==)>(settings: Settings, token: string, bindingsExist: bool, items: seq<Entry<S>>, env: Env<S>): (r: Outcome<S>)
    ensures !bindingsExist ==> r == Outcome(token, [], [])
    ensures token != "" ==> r.token == token && forall q :: q in r.requests ==> !q.GetToken?
    ensures bindingsExist && token == "" ==>
      && |r.requests| >= 1
      && r.requests[0] == GetToken(settings.email, settings.password)
      && (forall i :: 1 <= i < |r.requests| ==> !r.requests[i].GetToken?)
      && r.token == Login(token, env.server.login(settings.email, settings.password))
    ensures r.token == "" ==> r.updates == [] && forall q :: q in r.requests ==> q.GetToken?
    ensures forall i, j :: 0 <= i < j < |r.requests| ==> r.requests[i] != r.requests[j]
    ensures forall q :: q in r.requests && !q.GetToken? ==> q.token == r.token
    ensures forall q :: q in r.requests && q.GetEnergy? ==> q.offset == settings.offset
  {
    if !bindingsExist then Outcome(token, [], [])
    else
      var t := if token == "" then Login(token, env.server.login(settings.email, settings.password)) else token;
      if t == "" then Outcome(t, LoginRequests(settings, token), [])
      else
        var p := Poll(Ctx(t, settings.offset, env), map[], items);
        var requests := LoginRequests(settings, token) + p.requests;
        assert forall i :: |LoginRequests(settings, token)| <= i < |requests| ==>
          requests[i] in p.requests;
        Outcome(t, requests, p.updates)
  }
}
