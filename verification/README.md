# Efergy Engage binding — a Dafny model

This project models the decision logic of the openHAB 1 Efergy Engage
binding, which polls the Efergy Engage web service for the instant power
reading and for the energy used over the current day, week, month and year,
and posts the values to openHAB items.

Three parts are modelled, each as pure functions over immutable data:

- **The refresh cycle** (`EfergyEngageBinding.execute`), in module `Cycle`.
  A cycle does nothing without bindings. It logs in only when the token is
  empty, and gives up if the token is still empty afterwards. It then walks the
  bound items in order. An item missing from the item registry, or bound with
  an unknown string, is skipped. For every other item the cycle reads the
  measurement of its kind, at most once per cycle. It then posts the rendered
  state when it differs from the item's current state; `lastmeasurement` items
  are posted every time. `Cycle.Execute` takes the token, the bindings flag,
  the items (name, binding string, registry state) and an environment of
  server answers. It returns the new token, the requests sent, and the updates
  posted. Module `CycleProperties` proves the cycle equal to a reference that
  has no cache, and derives the rest from that.
- **The server answers** (`login`, `readInstant`, `readEnergy`), in module
  `Client`. These decide which JSON fields change the token or fill a
  measurement. A response is a map from field name to optional text.
- **The configuration** (`readConfiguration`), in module `Configuration`, and
  **the binding provider** (`EfergyEngageGenericBindingProvider`), in module
  `Provider`. The provider validates item classes and the six binding tokens
  (module `Constants`). It also keeps the per-item binding string and stored
  value.

Module `JavaStrings` models the Java library behaviour the configuration and
`readEnergy` depend on: `Character.isWhitespace` (used by
`StringUtils.isNotBlank` in the configuration), `Long.parseLong` (the refresh
interval) and `String.trim` (the energy sum).

Inputs that stand in for code outside the model:

- `Cycle.Server`: the answers to the login, instant and energy requests, as
  functions of the request parameters.
- `Client.Conversions`: Gson's `getAsInt`/`getAsLong`, `Float.valueOf`, and
  the widening of an `int` to `float`.
- `Cycle.Renderers`: the construction of `DecimalType`, `DateTimeType` and
  `StringType` states. An item state is an abstract type `S` compared with `==`.
- The `bindingsExist` flag and each item's registry state.

## Model

| member | source | states |
|---|---|---|
| `Configuration.ReadConfiguration` | src/main/java/org/openhab/binding/efergyengage/internal/EfergyEngageBinding.java:95-118 | each of refresh, email, password and offset replaces its field exactly when its value is present and not blank, independently of the others; an unparsable non-blank refresh fails and changes nothing; a refresh taken from the configuration is a 64-bit value |
| `Configuration.DefaultsWhenUnset` | src/main/java/org/openhab/binding/efergyengage/internal/EfergyEngageBinding.java:65-69 | with no non-blank value configured the fields are 60000 ms, no e-mail, no password and offset "-60" |
| `Configuration.ReadConfigurationIdempotent` | src/main/java/org/openhab/binding/efergyengage/internal/EfergyEngageBinding.java:125-128 | re-reading the same configuration (as `modified` does) changes nothing further |
| `Configuration.ReadConfigurationOverlay` | src/main/java/org/openhab/binding/efergyengage/internal/EfergyEngageBinding.java:95-118 | reading two configurations one after the other equals reading the second laid over the first: later blank values never erase earlier ones |
| `JavaStrings.ParseLong` | src/main/java/org/openhab/binding/efergyengage/internal/EfergyEngageBinding.java:100 | a refresh value is accepted exactly when it is a sign-optional, non-empty run of decimal digits whose value fits in 64 bits, and the result is that numeral's signed value |
| `JavaStrings.DigitsValueFirst` | src/main/java/org/openhab/binding/efergyengage/internal/EfergyEngageBinding.java:100 | a numeral's value read from its first digit on equals its value read from its last digit back |
| `JavaStrings.ParseLongPaddedNumerals` | src/main/java/org/openhab/binding/efergyengage/internal/EfergyEngageBinding.java:100 | a refresh value with a leading `+` or leading zeros is read as the same number as its plain decimal form |
| `JavaStrings.ParseLongShowLong` | src/main/java/org/openhab/binding/efergyengage/internal/EfergyEngageBinding.java:100 | every 64-bit value written in decimal is read back as itself |
| `JavaStrings.ParseLongRejectsWhitespace` | src/main/java/org/openhab/binding/efergyengage/internal/EfergyEngageBinding.java:99-100 | a refresh value that passes the not-blank test but contains whitespace still fails to parse |
| `JavaStrings.Trim` | src/main/java/org/openhab/binding/efergyengage/internal/EfergyEngageBinding.java:359 | the trimmed sum is the slice of the sum left after removing characters up to U+0020 at both ends; it starts and ends with a character above U+0020, and is empty exactly when the sum has no such character |
| `JavaStrings.TrimIdempotent` | src/main/java/org/openhab/binding/efergyengage/internal/EfergyEngageBinding.java:359 | trimming twice is trimming once |
| `Client.LoginOutcomeOf` | src/main/java/org/openhab/binding/efergyengage/internal/EfergyEngageBinding.java:280-289 | a login is granted exactly when status is "ok" and a token can be read; it is refused with the `desc` text exactly when a status other than "ok" is read |
| `Client.Login` | src/main/java/org/openhab/binding/efergyengage/internal/EfergyEngageBinding.java:281-294 | the token becomes the response's `token` field when status equals "ok", and stays unchanged on any other status and on every failure |
| `Client.ReadInstant` | src/main/java/org/openhab/binding/efergyengage/internal/EfergyEngageBinding.java:297-332 | the value is set exactly when `reading` is present and converts to an int; the timestamp only after it, exactly when `last_reading_time` also converts; no unit; otherwise the default measurement |
| `Client.ReadEnergy` | src/main/java/org/openhab/binding/efergyengage/internal/EfergyEngageBinding.java:334-368 | value and unit are set together, exactly when `sum` and `units` are both present and readable and the trimmed sum is a float; no timestamp |
| `Client.MissingFieldIsUnset` | src/main/java/org/openhab/binding/efergyengage/internal/EfergyEngageBinding.java:319-324 | an answer without `reading` (or without `sum` or `units`) gives the same default measurement as a failed request |
| `Constants.KindOf` | src/main/java/org/openhab/binding/efergyengage/internal/EfergyEngageBinding.java:209-257 | a binding string selects a kind exactly when it is one of the six tokens, and the kind's token is that very string |
| `Constants.KindTokenRoundTrip` | src/main/java/org/openhab/binding/efergyengage/internal/EfergyEngageConstants.java:9-14 | the six tokens are pairwise distinct and each selects its own kind |
| `Constants.PeriodNameInjective` | src/main/java/org/openhab/binding/efergyengage/internal/EfergyEngageBinding.java:225-252 | the four totals ask for four distinct `period` parameters |
| `Cycle.RequestFor` | src/main/java/org/openhab/binding/efergyengage/internal/EfergyEngageBinding.java:210-252 | `instant` and `lastmeasurement` need the instant read; each total needs the energy read of its own period with the configured offset; all with the cycle's token |
| `Cycle.Decide` | src/main/java/org/openhab/binding/efergyengage/internal/EfergyEngageBinding.java:213-255 | an item posts at most one update, of its rendered state; `lastmeasurement` always posts; every other kind posts exactly when the rendered state differs from the current one |
| `Cycle.Visit` | src/main/java/org/openhab/binding/efergyengage/internal/EfergyEngageBinding.java:202-260 | one item sends at most one read, only one not yet cached, and caches what it reads |
| `Cycle.Poll` | src/main/java/org/openhab/binding/efergyengage/internal/EfergyEngageBinding.java:200-262 | the walk never sends the same read twice, and sends only reads with the cycle's token and offset that were not cached |
| `Cycle.Execute` | src/main/java/org/openhab/binding/efergyengage/internal/EfergyEngageBinding.java:179-263 | no bindings: nothing happens; empty token: exactly one login, sent first; still empty: no reads and no updates; non-empty token: no login and the token is kept; no request repeats |
| `CycleProperties.PollMatchesReference` | src/main/java/org/openhab/binding/efergyengage/internal/EfergyEngageBinding.java:194-257 | the cache is invisible: updates equal those of a walk that reads afresh for every item, and each needed read is sent once, at its first need |
| `CycleProperties.ExecuteMatchesReference` | src/main/java/org/openhab/binding/efergyengage/internal/EfergyEngageBinding.java:183-262 | a cycle with a token sends the login (if needed) then the first occurrences of the needed reads, and posts the cache-free reference's updates |
| `CycleProperties.ReadsAtMostOnce` | src/main/java/org/openhab/binding/efergyengage/internal/EfergyEngageBinding.java:194-252 | at most one instant read and at most one energy read per period in a cycle, failed reads included |
| `CycleProperties.ReadSent` | src/main/java/org/openhab/binding/efergyengage/internal/EfergyEngageBinding.java:205-252 | a read is sent exactly when the cycle has a token and some known item needs it |
| `CycleProperties.InstantReadIff` | src/main/java/org/openhab/binding/efergyengage/internal/EfergyEngageBinding.java:205-224 | the instant is read exactly when bindings exist, a token is held, and some item found in the registry is bound as `instant` or `lastmeasurement` |
| `CycleProperties.EnergyReadIff` | src/main/java/org/openhab/binding/efergyengage/internal/EfergyEngageBinding.java:225-256 | a period's energy is read exactly when bindings exist, a token is held, and some item found in the registry is bound to that period's total |
| `CycleProperties.IrrelevantItemsAreInert` | src/main/java/org/openhab/binding/efergyengage/internal/EfergyEngageBinding.java:205-260 | items missing from the registry or bound with an unknown string change nothing: the cycle is identical without them |
| `CycleProperties.QuietSecondCycle` | src/main/java/org/openhab/binding/efergyengage/internal/EfergyEngageBinding.java:213-255 | after a cycle's updates reach the registry, the next cycle on unchanged readings keeps the token, sends the same reads without login, and posts only `lastmeasurement` items |
| `CycleProperties.TokenSticks` | src/main/java/org/openhab/binding/efergyengage/internal/EfergyEngageBinding.java:188-192 | once a token is held, every later cycle keeps exactly that token |
| `CycleProperties.DeclaredItemsSkippedOnlyWhenMissing` | src/main/java/org/openhab/binding/efergyengage/internal/EfergyEngageBinding.java:200-206 | with a registry filled through declarations, an item is skipped by the walk exactly when the item registry does not know it |
| `Provider.ValidateItemType` | src/main/java/org/openhab/binding/efergyengage/internal/EfergyEngageGenericBindingProvider.java:40-49 | accepted exactly when the item is a Number, String or DateTime item and the string is one of the six tokens; the error names the item and its class |
| `Provider.NoPairingCheck` | src/main/java/org/openhab/binding/efergyengage/internal/EfergyEngageGenericBindingProvider.java:41-43 | every accepted item class is accepted with every token, e.g. a DateTime item with `daytotal` |
| `Provider.TokensAreExact` | src/main/java/org/openhab/binding/efergyengage/internal/EfergyEngageGenericBindingProvider.java:42-43 | tokens match case-sensitively and without trimming |
| `Provider.GetItemType` | src/main/java/org/openhab/binding/efergyengage/internal/EfergyEngageGenericBindingProvider.java:67-70 | a bound item yields its raw binding string, any other item yields null |
| `Provider.GetItemValue` | src/main/java/org/openhab/binding/efergyengage/internal/EfergyEngageGenericBindingProvider.java:73-76 | an unbound item yields -1, a bound item its stored value |
| `Provider.ProcessBindingConfiguration` | src/main/java/org/openhab/binding/efergyengage/internal/EfergyEngageGenericBindingProvider.java:55-64 | afterwards the item's type is the raw binding string and its value -1, even if it was bound before; other items are untouched |
| `Provider.SetItemValue` | src/main/java/org/openhab/binding/efergyengage/internal/EfergyEngageGenericBindingProvider.java:79-83 | a bound item stores the new value and keeps its type; an unbound item changes nothing; other items are untouched |
| `Provider.SetThenGet` | src/main/java/org/openhab/binding/efergyengage/internal/EfergyEngageGenericBindingProvider.java:97-99 | a stored value is read back, and other items read as before |
| `Provider.Declare` | src/main/java/org/openhab/binding/efergyengage/internal/EfergyEngageGenericBindingProvider.java:40-64 | a declaration fails exactly when validation fails, and otherwise processes the binding |
| `Provider.DeclaredBindingsAreRecognised` | src/main/java/org/openhab/binding/efergyengage/internal/EfergyEngageGenericBindingProvider.java:40-64 | declarations and stored values keep every binding string one of the six tokens |

## Left out

- HTTP: the request URLs, connections and readers. Each endpoint is a function from its query parameters to a response; `None` is any failure before fields are read.
- Gson parsing, `getAsInt`, `getAsLong` and `Float.valueOf`: supplied as conversion functions, because they are library parsing and floating point.
- Floating point and time: `DecimalType`, `StringType`, `DateTimeType`, `Calendar`, and float-to-text rendering of totals are supplied as renderers over an abstract state type. State equality is `==` on that type.
- `EfergyEngageMeasurement` and `EfergyEngageException` are not part of this model. A measurement field never set is `None`, standing for the class's unknown default.
- Client.ReadInstant: the widening of the int reading to `float` is a supplied function, so its rounding is not modelled.
- Lifecycle and framework plumbing: `activate`, `modified`, `deactivate`, `setProperlyConfigured`, the refresh timer, `getRefreshInterval`, `getName`, `setItemRegistry`, `getBindingType`, and logging. `bindingsExist()` is an input flag, because `AbstractActiveBinding` is not part of this model.
- The item registry and the event bus: each item's registry state is an input, and posted updates are an output list. Whether an update posted earlier in a cycle is visible to a later lookup of the same item is not modelled. `CycleProperties.QuietSecondCycle` assumes every posted update becomes the item's registry state; the registry may refuse a state the item's class does not accept (for example a `DateTimeItem` bound to `daytotal`, which validation allows), and then that item keeps posting.
- `super.processBindingConfiguration` context bookkeeping: `AbstractGenericBindingProvider` is not part of this model. `Provider.Declare` assumes the framework calls `validateItemType` before `processBindingConfiguration`.
- `internalReceiveCommand` and `internalReceiveUpdate`: they only log.
- A configuration value that is not a `String` (a `ClassCastException`): configuration values are strings here.
- JavaStrings.ParseLong: accepts only ASCII digits, whereas `Long.parseLong` also accepts other Unicode decimal digits.
- JavaStrings.IsWhitespace: follows one Unicode version's space separators. It works on Unicode scalar values rather than UTF-16 code units.
- Provider.GetItemValue: the stored `float` is a `real`. Values are only stored and returned, so no rounding is involved.
- Behaviour this code does not have is not modelled. The token is never cleared after a failed read. A failed read is not skipped: its default measurement is cached and rendered. Change detection compares with the item registry's state, not with the provider's stored value. Login happens lazily inside the cycle.
- Concurrency: the cycle is modelled as running alone on the framework's timer. `modified` runs on the configuration thread and may change `utcOffset` (or the credentials) in the middle of a cycle; the model gives each cycle one fixed offset.
