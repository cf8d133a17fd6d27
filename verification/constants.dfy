/** The binding-configuration tokens of EfergyEngageConstants and the
    measurement kinds they stand for. */
module Constants {
  import opened Wrappers

  const LastMeasurementToken: string := "lastmeasurement"
  const InstantToken: string := "instant"
  const DayTotalToken: string := "daytotal"
  const WeekTotalToken: string := "weektotal"
  const MonthTotalToken: string := "monthtotal"
  const YearTotalToken: string := "yeartotal"

  /** The six tokens an item may be bound with. */
  const Tokens: set<string> :=
    {InstantToken, LastMeasurementToken, DayTotalToken, WeekTotalToken, MonthTotalToken, YearTotalToken}

  /** The periods the energy endpoint is asked about. */
  datatype Period = Day | Week | Month | Year

  /** The `period` query parameter sent for a period. */
  function PeriodName(p: Period): string {
    match p
    case Day => "day"
    case Week => "week"
    case Month => "month"
    case Year => "year"
  }

  /** What a bound item shows: the instant power, the time of the last
      reading, or the energy total of one period. */
  datatype Kind = Instant | LastMeasurement | Total(period: Period)

  /** The token that binds an item to a kind. */
  function TokenOf(k: Kind): string {
    match k
    case Instant => InstantToken
    case LastMeasurement => LastMeasurementToken
    case Total(Day) => DayTotalToken
    case Total(Week) => WeekTotalToken
    case Total(Month) => MonthTotalToken
    case Total(Year) => YearTotalToken
  }

  /** The case selection of the poll cycle's `switch (type)`: exact,
      case-sensitive string equality against the six constants. */
  function KindOf(s: string): (r: Option<Kind>)
    ensures r.Some? <==> s in Tokens
    ensures r.Some? ==> TokenOf(r.value) == s
  {
    if s == InstantToken then Some(Instant)
    else if s == LastMeasurementToken then Some(LastMeasurement)
    else if s == DayTotalToken then Some(Total(Day))
    else if s == WeekTotalToken then Some(Total(Week))
    else if s == MonthTotalToken then Some(Total(Month))
    else if s == YearTotalToken then Some(Total(Year))
    else None
  }

  /** Every kind is recognised from its own token, and no two kinds share one. */
  lemma KindTokenRoundTrip(k: Kind)
    ensures KindOf(TokenOf(k)) == Some(k)
    ensures forall k' :: TokenOf(k') == TokenOf(k) ==> k' == k
  {
  }

  /** Distinct periods are requested under distinct names. */
  lemma PeriodNameInjective(p: Period, q: Period)
    ensures PeriodName(p) == PeriodName(q) ==> p == q
  {
  }
}
