/**
  The trading-hours and liquid-hours report of the contract-details
  callback. A schedule string lists periods separated by `;`; each period is
  a date, a `:`, and the hours of that date. A period without a `:` is a
  closed day and is reported with hours `CLOSED`.
 */
module TradingHours {
  import opened Text

  const PeriodSeparator: char := ';'
  const DateSeparator: char := ':'
  const Closed: string := "CLOSED"

  /** One reported line: the date part and the hours part of a period. */
  datatype Period = Period(date: string, hours: string)

  /**
    Splits one period at its first `:`. The date never holds a `:`; the
    hours keep any later ones. Without a `:` the whole period is the date.
   */
  function ParsePeriod(period: string): (r: Period)
    ensures DateSeparator !in r.date
    ensures DateSeparator in period ==> r.date + [DateSeparator] + r.hours == period
    ensures DateSeparator !in period ==> r == Period(period, Closed)
  {
    var parts := SplitOnce(period, DateSeparator);
    Period(parts[0], if |parts| > 1 then parts[1] else Closed)
  }

  /** Conversely, a colon-free date joined to any hours text parses back to exactly that pair. */
  lemma ParsePeriodOfJoined(date: string, hours: string)
    requires DateSeparator !in date
    ensures ParsePeriod(date + [DateSeparator] + hours) == Period(date, hours)
  {
    var period := date + [DateSeparator] + hours;
    IndexOfAfterPrefix(date, DateSeparator, hours);
    assert period[..|date|] == date;
    assert period[|date| + 1..] == hours;
  }

  /**
    A period that reads `date:CLOSED` is reported exactly like the bare
    `date` of a closed day: the report cannot tell the two apart.
   */
  lemma ClosedIsAmbiguous(date: string)
    requires DateSeparator !in date
    ensures ParsePeriod(date + [DateSeparator] + Closed) == ParsePeriod(date)
  {
    ParsePeriodOfJoined(date, Closed);
  }

  /**
    The whole report for one schedule: one entry per `;`-separated period,
    in input order, each parsed on its own.
   */
  function ParseSchedule(schedule: string): (entries: seq<Period>)
    ensures |entries| == multiset(schedule)[PeriodSeparator] + 1
    ensures forall k :: 0 <= k < |entries| ==> entries[k] == ParsePeriod(Split(schedule, PeriodSeparator)[k])
  {
    var periods := Split(schedule, PeriodSeparator);
    seq(|periods|, k requires 0 <= k < |periods| => ParsePeriod(periods[k]))
  }

  /** An empty schedule still yields one entry: an empty, closed date. */
  lemma EmptyScheduleIsOneClosedPeriod()
    ensures ParseSchedule("") == [Period("", Closed)]
  {
    assert multiset("")[PeriodSeparator] == 0;
  }

  /**
    Order and content are preserved: for a schedule written as `;`-separated
    periods, entry `k` is the parse of period `k`.
   */
  lemma ParseScheduleOfJoined(periods: seq<string>)
    requires |periods| > 0
    requires forall k :: 0 <= k < |periods| ==> PeriodSeparator !in periods[k]
    ensures |ParseSchedule(Join(periods, PeriodSeparator))| == |periods|
    ensures forall k :: 0 <= k < |periods| ==>
      ParseSchedule(Join(periods, PeriodSeparator))[k] == ParsePeriod(periods[k])
  {
    SplitJoin(periods, PeriodSeparator);
  }

  /**
    When every period has a `:`, writing each entry back as `date:hours` and
    joining them with `;` restores the schedule text.
   */
  lemma ScheduleRoundTrip(schedule: string)
    requires forall k :: 0 <= k < |Split(schedule, PeriodSeparator)| ==> DateSeparator in Split(schedule, PeriodSeparator)[k]
    ensures Join(RenderAll(ParseSchedule(schedule)), PeriodSeparator) == schedule
  {
    var periods := Split(schedule, PeriodSeparator);
    var entries := ParseSchedule(schedule);
    assert RenderAll(entries) == periods;
    JoinSplit(schedule, PeriodSeparator);
  }

  /** A period written back as `date:hours`. */
  function Render(p: Period): string
  {
    p.date + [DateSeparator] + p.hours
  }

  function RenderAll(entries: seq<Period>): (texts: seq<string>)
    ensures |texts| == |entries|
    ensures forall k :: 0 <= k < |entries| ==> texts[k] == Render(entries[k])
  {
    seq(|entries|, k requires 0 <= k < |entries| => Render(entries[k]))
  }

  /** The two reports of a contract: trading hours and liquid hours. */
  datatype HoursReport = HoursReport(trading: seq<Period>, liquid: seq<Period>)

  /**
    Both schedules go through the identical procedure: each report has one
    entry per period of its own schedule, in order, entry `k` being the
    date and hours of period `k`.
   */
  function ReportContractHours(tradingHours: string, liquidHours: string): (r: HoursReport)
    ensures |r.trading| == multiset(tradingHours)[PeriodSeparator] + 1
    ensures |r.liquid| == multiset(liquidHours)[PeriodSeparator] + 1
    ensures forall k :: 0 <= k < |r.trading| ==>
      r.trading[k] == ParsePeriod(Split(tradingHours, PeriodSeparator)[k])
    ensures forall k :: 0 <= k < |r.liquid| ==>
      r.liquid[k] == ParsePeriod(Split(liquidHours, PeriodSeparator)[k])
  {
    HoursReport(ParseSchedule(tradingHours), ParseSchedule(liquidHours))
  }

  /** Liquid hours are reported exactly as the same text would be as trading hours. */
  lemma LiquidHoursLikeTradingHours(tradingHours: string, liquidHours: string)
    ensures ReportContractHours(tradingHours, liquidHours).liquid
         == ReportContractHours(liquidHours, tradingHours).trading
  {
  }

  /**
    Both reports lose nothing: when every period has a `:`, writing each
    report's entries back as `date:hours` and joining them with `;` restores
    its own schedule.
   */
  lemma ReportRoundTrip(tradingHours: string, liquidHours: string)
    requires forall k :: 0 <= k < |Split(tradingHours, PeriodSeparator)| ==>
      DateSeparator in Split(tradingHours, PeriodSeparator)[k]
    requires forall k :: 0 <= k < |Split(liquidHours, PeriodSeparator)| ==>
      DateSeparator in Split(liquidHours, PeriodSeparator)[k]
    ensures Join(RenderAll(ReportContractHours(tradingHours, liquidHours).trading), PeriodSeparator) == tradingHours
    ensures Join(RenderAll(ReportContractHours(tradingHours, liquidHours).liquid), PeriodSeparator) == liquidHours
  {
    ScheduleRoundTrip(tradingHours);
    ScheduleRoundTrip(liquidHours);
  }
}
