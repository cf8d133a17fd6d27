/** The binding's service configuration (`readConfiguration`): refresh
    interval, account e-mail and password, and the UTC offset sent with every
    energy request. */
module Configuration {
  import opened Wrappers
  import opened JavaStrings

  /** The configuration fields of the binding. `None` is a Java `null`: the
      e-mail and password start unset. */
  datatype Settings = Settings(refresh: int, email: Option<string>, password: Option<string>, offset: string)

  const DefaultRefresh: int := 60000
  const DefaultOffset: string := "-60"

  /** The field values before any configuration is read. */
  const Initial: Settings := Settings(DefaultRefresh, None, None, DefaultOffset)

  /** The configuration dictionary handed over by the framework; a key that is
      absent stands for `get` returning `null`. */
  type Properties = map<string, string>

  /** `StringUtils.isNotBlank(configuration.get(key))`. */
  predicate Given(cfg: Properties, key: string) {
    key in cfg && !IsBlank(cfg[key])
  }

  /** The value a field takes: the configured one when it is given, the prior
      one otherwise. */
  function Override(cfg: Properties, key: string, prior: string): string {
    if Given(cfg, key) then cfg[key] else prior
  }

  function OverrideOption(cfg: Properties, key: string, prior: Option<string>): Option<string> {
    if Given(cfg, key) then Some(cfg[key]) else prior
  }

  /** Why reading a configuration failed: `Long.parseLong` rejected the
      refresh value. */
  datatype ConfigError = RefreshNotANumber(text: string)

  /** `readConfiguration`. Each of `refresh`, `email`, `password` and `offset`
      overwrites its field only when its value is not blank, independently of
      the others. The refresh value is read first, so when it is not a number
      the exception leaves every field as it was. */
  function ReadConfiguration(prior: Settings, cfg: Properties): (r: Result<Settings, ConfigError>)
    ensures r.Failure? <==> "refresh" in cfg && !IsBlank(cfg["refresh"]) && ParseLong(cfg["refresh"]).None?
    ensures r.Failure? ==> r.error == RefreshNotANumber(cfg["refresh"])
    ensures r.Success? ==>
      && r.value.refresh == (if "refresh" in cfg && !IsBlank(cfg["refresh"]) then ParseLong(cfg["refresh"]).value else prior.refresh)
      && r.value.email == (if "email" in cfg && !IsBlank(cfg["email"]) then Some(cfg["email"]) else prior.email)
      && r.value.password == (if "password" in cfg && !IsBlank(cfg["password"]) then Some(cfg["password"]) else prior.password)
      && r.value.offset == (if "offset" in cfg && !IsBlank(cfg["offset"]) then cfg["offset"] else prior.offset)
    ensures r.Success? ==> MinLong <= r.value.refresh <= MaxLong || r.value.refresh == prior.refresh
  {
    var refresh :=
      if Given(cfg, "refresh") then ParseLong(cfg["refresh"]) else Some(prior.refresh);
    match refresh
    case None => Failure(RefreshNotANumber(cfg["refresh"]))
    case Some(interval) =>
      Success(Settings(
        interval,
        OverrideOption(cfg, "email", prior.email),
        OverrideOption(cfg, "password", prior.password),
        Override(cfg, "offset", prior.offset)))
  }

  /** With nothing configured, the fields keep their defaults: a refresh
      interval of 60000 ms, no credentials, and an offset of "-60". */
  lemma DefaultsWhenUnset(cfg: Properties)
    requires forall key :: key in cfg ==> IsBlank(cfg[key])
    ensures ReadConfiguration(Initial, cfg) == Success(Settings(60000, None, None, "-60"))
  {
  }

  /** Reading the same configuration a second time (as `modified` does when
      nothing changed) changes nothing more. */
  lemma ReadConfigurationIdempotent(prior: Settings, cfg: Properties)
    requires ReadConfiguration(prior, cfg).Success?
    ensures ReadConfiguration(ReadConfiguration(prior, cfg).value, cfg) == ReadConfiguration(prior, cfg)
  {
  }

  /** `later` laid over `earlier`: the non-blank values of `later` win, and a
      blank value of `later` survives only where `earlier` has no value. */
  function Overlay(earlier: Properties, later: Properties): (r: Properties)
    ensures r.Keys == earlier.Keys + later.Keys
    ensures forall key :: key in r ==> r[key] == (if Given(later, key) || key !in earlier then later[key] else earlier[key])
  {
    map key | key in earlier.Keys + later.Keys ::
      if Given(later, key) || key !in earlier then later[key] else earlier[key]
  }

  /** A key is given in the overlay when either side gives it, and the later
      side's value wins. */
  lemma OverlayGiven(earlier: Properties, later: Properties, key: string)
    ensures Given(Overlay(earlier, later), key) <==> Given(later, key) || Given(earlier, key)
    ensures Given(Overlay(earlier, later), key) ==>
      Overlay(earlier, later)[key] == (if Given(later, key) then later[key] else earlier[key])
  {
  }

  /** Reading one configuration and then another is the same as reading the
      second laid over the first: a later blank value never erases an earlier
      one, and a later non-blank value always replaces it. */
  lemma ReadConfigurationOverlay(prior: Settings, earlier: Properties, later: Properties)
    requires ReadConfiguration(prior, earlier).Success?
    ensures ReadConfiguration(ReadConfiguration(prior, earlier).value, later)
         == ReadConfiguration(prior, Overlay(earlier, later))
  {
    OverlayGiven(earlier, later, "refresh");
    OverlayGiven(earlier, later, "email");
    OverlayGiven(earlier, later, "password");
    OverlayGiven(earlier, later, "offset");
  }
}
