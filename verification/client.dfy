/** What the binding makes of the Efergy Engage server's answers: the token
    decision of `login` and the field extraction of `readInstant` and
    `readEnergy`. The HTTP exchange and the JSON parser are left abstract: a
    response is what the parser produced, and the numeric conversions Gson and
    `Float.valueOf` perform are supplied as functions. */
module Client {
  import opened Wrappers
  import opened JavaStrings

  /** A parsed JSON object: each field it has, mapped to the field's text, or
      to `None` when Gson's `getAsString` fails on it (a JSON `null`, an
      object, an array not of exactly one element). */
  type Fields = map<string, Option<string>>

  /** A server answer. `None` is any failure before fields are read: a
      malformed URL, an I/O error, a body that is not a JSON object. Each is
      caught and only logged. */
  type Response = Option<Fields>

  /** `jobject.get(name).getAsString()`: `None` when the field is absent (a
      `NullPointerException`) or cannot be read as text. */
  function Text(f: Fields, name: string): (r: Option<string>)
    ensures r.Some? <==> name in f && f[name].Some?
    ensures r.Some? ==> f[name] == Some(r.value)
  {
    if name in f then f[name] else None
  }

  /** The numeric conversions the binding leaves to its libraries, each `None`
      where the library throws: Gson's `getAsInt` and `getAsLong` on a field's
      text, `Float.valueOf` on trimmed text, and the widening of an `int`
      reading to the measurement's `float`. */
  datatype Conversions = Conversions(
    asInt: string -> Option<int>,
    asLong: string -> Option<int>,
    asFloat: string -> Option<real>,
    widen: int -> real)

  /** An `EfergyEngageMeasurement`. A field that is `None` was never set and
      holds whatever default the measurement class gives it. */
  datatype Measurement = Measurement(value: Option<real>, millis: Option<int>, unit: Option<string>)

  /** A freshly constructed measurement, as every read starts from. */
  const Unset: Measurement := Measurement(None, None, None)

  /** How one login request ended. */
  datatype LoginOutcome =
    | Granted(token: string)          // status "ok" with a readable token
    | Refused(desc: Option<string>)   // any other status; desc is logged
    | Failed                          // no usable answer at all

  /** The status decision of `login`. */
  function LoginOutcomeOf(resp: Response): (r: LoginOutcome)
    ensures r.Granted? <==>
      resp.Some? && Text(resp.value, "status") == Some("ok") && Text(resp.value, "token").Some?
    ensures r.Granted? ==> Text(resp.value, "token") == Some(r.token)
    ensures r.Refused? <==>
      resp.Some? && Text(resp.value, "status").Some? && Text(resp.value, "status") != Some("ok")
    ensures r.Refused? ==> r.desc == Text(resp.value, "desc")
  {
    match resp
    case None => Failed
    case Some(f) =>
      match Text(f, "status")
      case None => Failed
      case Some(status) =>
        if status == "ok" then
          match Text(f, "token")
          case Some(t) => Granted(t)
          case None => Failed
        else Refused(Text(f, "desc"))
  }

  /** The token after `login`: the response's `token` field when its `status`
      is exactly "ok"; on any other status, and on every failure, the token is
      left as it was. */
  function Login(token: string, resp: Response): (r: string)
    ensures r == token || (resp.Some? && Text(resp.value, "status") == Some("ok") && Text(resp.value, "token") == Some(r))
    ensures resp.Some? && Text(resp.value, "status") == Some("ok") && Text(resp.value, "token").Some?
            ==> r == Text(resp.value, "token").value
    ensures !(resp.Some? && Text(resp.value, "status") == Some("ok")) ==> r == token
  {
    match LoginOutcomeOf(resp)
    case Granted(t) => t
    case _ => token
  }

  /** `readInstant`. Value and timestamp are filled only when the answer has a
      `reading` field that converts to an `int`; the timestamp is set after
      the value, so a `last_reading_time` that is missing or not a `long`
      leaves a measurement with a value and no timestamp. No unit is ever
      set. */
  function ReadInstant(resp: Response, conv: Conversions): (m: Measurement)
    ensures m.unit == None
    ensures m.value.Some? <==>
      resp.Some? && Text(resp.value, "reading").Some? && conv.asInt(Text(resp.value, "reading").value).Some?
    ensures m.value.Some? ==> m.value.value == conv.widen(conv.asInt(Text(resp.value, "reading").value).value)
    ensures m.millis.Some? <==>
      m.value.Some? && Text(resp.value, "last_reading_time").Some?
      && conv.asLong(Text(resp.value, "last_reading_time").value).Some?
    ensures m.millis.Some? ==> Some(m.millis.value) == conv.asLong(Text(resp.value, "last_reading_time").value)
  {
    match resp
    case None => Unset
    case Some(f) =>
      if "reading" !in f then Unset
      else
        match Text(f, "reading")
        case None => Unset
        case Some(text) =>
          match conv.asInt(text)
          case None => Unset
          case Some(reading) =>
            var m := Unset.(value := Some(conv.widen(reading)));
            match Text(f, "last_reading_time")
            case None => m
            case Some(stamp) =>
              match conv.asLong(stamp)
              case None => m
              case Some(millis) => m.(millis := Some(millis))
  }

  /** `readEnergy`. Value and unit are filled only when the answer has both a
      `sum` and a `units` field, both read as text, and the trimmed sum is a
      float; they are set together or not at all. No timestamp is ever
      set. */
  function ReadEnergy(resp: Response, conv: Conversions): (m: Measurement)
    ensures m.millis == None
    ensures m.value.Some? <==> m.unit.Some?
    ensures m.value.Some? <==>
      resp.Some? && Text(resp.value, "sum").Some? && Text(resp.value, "units").Some?
      && conv.asFloat(Trim(Text(resp.value, "sum").value)).Some?
    ensures m.value.Some? ==>
      && Some(m.value.value) == conv.asFloat(Trim(Text(resp.value, "sum").value))
      && Some(m.unit.value) == Text(resp.value, "units")
  {
    match resp
    case None => Unset
    case Some(f) =>
      if "sum" !in f || "units" !in f then Unset
      else
        match (Text(f, "sum"), Text(f, "units"))
        case (Some(energy), Some(units)) =>
          (match conv.asFloat(Trim(energy))
           case None => Unset
           case Some(v) => Measurement(Some(v), None, Some(units)))
        case _ => Unset
  }

  /** A read whose answer lacks its key field returns the untouched default
      measurement, exactly as a read that failed altogether. */
  lemma MissingFieldIsUnset(f: Fields, conv: Conversions)
    ensures "reading" !in f ==> ReadInstant(Some(f), conv) == ReadInstant(None, conv) == Unset
    ensures "sum" !in f || "units" !in f ==> ReadEnergy(Some(f), conv) == ReadEnergy(None, conv) == Unset
  {
  }
}
