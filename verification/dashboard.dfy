/** The community dashboard's pure helpers (components/LiveDashboard.tsx):
    colour tiers of a blocked percentage, the bar width, the "time ago"
    label, the ISP filter options, and the state update after a statistics
    fetch. Percentages are compared as reals; the clock difference is an
    input in milliseconds. */
module Dashboard {
  import opened Wrappers
  import opened Numbers
  import Text

  // ---------------------------------------------------------------------
  // Tiers and bar
  // ---------------------------------------------------------------------

  datatype Tier = Red | Yellow | Green

  /** `BlockedBadge`: red from 50%, yellow from 10%, green below. */
  function BadgeTier(pct: real): (t: Tier)
    ensures t == Red <==> pct >= 50.0
    ensures t == Yellow <==> 10.0 <= pct < 50.0
    ensures t == Green <==> pct < 10.0
  {
    if pct >= 50.0 then Red
    else if pct >= 10.0 then Yellow
    else Green
  }

  /** The bar fill class for each tier. */
  function TierBarClass(t: Tier): string
  {
    match t
    case Red => "bg-red-500"
    case Yellow => "bg-yellow-500"
    case Green => "bg-emerald-500"
  }

  /** `BlockedBar`'s colour, chosen by its own nested conditional. */
  function BarColour(pct: real): (c: string)
    ensures c in {"bg-red-500", "bg-yellow-500", "bg-emerald-500"}
  {
    if pct >= 50.0 then "bg-red-500" else if pct >= 10.0 then "bg-yellow-500" else "bg-emerald-500"
  }

  /** The bar and the badge never disagree about a percentage's tier. */
  lemma BarAgreesWithBadge(pct: real)
    ensures BarColour(pct) == TierBarClass(BadgeTier(pct))
  {
  }

  /** The bar's width in percent: the percentage, capped at 100. */
  function BarWidth(pct: real): (w: real)
    ensures w <= 100.0 && w <= pct
    ensures w == pct || w == 100.0
    ensures pct <= 100.0 ==> w == pct
  {
    if pct < 100.0 then pct else 100.0
  }

  // ---------------------------------------------------------------------
  // Time ago
  // ---------------------------------------------------------------------

  datatype Ago = JustNow | MinutesAgo(minutes: int) | HoursAgo(hours: int) | DaysAgo(days: int)

  /** `timeAgo` on the milliseconds elapsed: under a minute (or in the
      future) is "just now"; then whole minutes 1 to 59, whole hours 1 to 23,
      and whole days from 1 on, each rounded down. */
  function TimeAgo(diff: int): (a: Ago)
    ensures a.JustNow? <==> diff < MinuteMs
    ensures a.MinutesAgo? <==> MinuteMs <= diff < HourMs
    ensures a.HoursAgo? <==> HourMs <= diff < DayMs
    ensures a.DaysAgo? <==> DayMs <= diff
    ensures a.MinutesAgo? ==>
      1 <= a.minutes <= 59 && a.minutes * MinuteMs <= diff < a.minutes * MinuteMs + MinuteMs
    ensures a.HoursAgo? ==>
      1 <= a.hours <= 23 && a.hours * HourMs <= diff < a.hours * HourMs + HourMs
    ensures a.DaysAgo? ==>
      1 <= a.days && a.days * DayMs <= diff < a.days * DayMs + DayMs
  {
    var mins := FloorDiv(diff, 60000);
    if mins < 1 then JustNow
    else if mins < 60 then MinutesAgo(mins)
    else
      var hrs := FloorDiv(mins, 60);
      if hrs < 24 then HoursAgo(hrs)
      else DaysAgo(FloorDiv(hrs, 24))
  }

  /** The label for an elapsed time: "just now", or a count followed by its
      unit, whose canonical digits (no leading zero) read back as the count. */
  function TimeAgoText(diff: int): (text: string)
    ensures diff < MinuteMs <==> text == "just now"
    ensures diff >= MinuteMs ==>
      && |text| > 5
      && var unit := text[|text| - 5..];
      && var digits := text[..|text| - 5];
      && (forall k :: 0 <= k < |digits| ==> Text.IsDigit(digits[k]))
      && |digits| >= 1 && digits[0] != '0'
      && (MinuteMs <= diff < HourMs ==> unit == "m ago" && Text.DecimalValue(digits) == TimeAgo(diff).minutes)
      && (HourMs <= diff < DayMs ==> unit == "h ago" && Text.DecimalValue(digits) == TimeAgo(diff).hours)
      && (DayMs <= diff ==> unit == "d ago" && Text.DecimalValue(digits) == TimeAgo(diff).days)
  {
    match TimeAgo(diff)
    case JustNow => "just now"
    case MinutesAgo(m) => CountThenUnit(m, "m ago")
    case HoursAgo(h) => CountThenUnit(h, "h ago")
    case DaysAgo(d) => CountThenUnit(d, "d ago")
  }

  /** A positive count followed by a five-character unit; the digits before
      the unit have no leading zero and read back as the count. */
  function CountThenUnit(n: int, unit: string): (text: string)
    requires n >= 1 && |unit| == 5
    ensures |text| > 5 && text[|text| - 5..] == unit
    ensures forall k :: 0 <= k < |text| - 5 ==> Text.IsDigit(text[k])
    ensures Text.DecimalValue(text[..|text| - 5]) == n
    ensures |text| > 5 && text[0] != '0'
    ensures text != "just now"
  {
    var digits := Text.NatToDecimal(n);
    var text := digits + unit;
    assert text[..|text| - 5] == digits;
    Text.DecimalRoundTrip(n);
    assert text[0] == digits[0];
    text
  }

  // ---------------------------------------------------------------------
  // Statistics and the ISP filter
  // ---------------------------------------------------------------------

  datatype ServiceStatRow = ServiceStatRow(
    serviceName: string, totalChecks: int, blockedCount: int, blockedPct: real, lastChecked: string)

  datatype IspStatRow = IspStatRow(
    serviceName: string, isp: string, totalChecks: int, blockedCount: int, blockedPct: real,
    lastChecked: string)

  /** The filter's options: every ISP named in the rows, once, ascending in
      the default sort order. */
  function IspOptions(rows: seq<IspStatRow>): (isps: seq<string>)
    ensures Text.StrictlySorted(isps)
    ensures forall x :: x in isps <==> exists i :: 0 <= i < |rows| && rows[i].isp == x
  {
    var names := seq(|rows|, i requires 0 <= i < |rows| => rows[i].isp);
    var isps := Text.SortedUnique(names);
    assert forall x :: x in isps <==> x in Text.Elems(names);
    assert forall i :: 0 <= i < |rows| ==> names[i] == rows[i].isp;
    isps
  }

  /** The options are the only strictly ascending list of those ISPs, so
      they do not depend on the row order or on how duplicates are merged. */
  lemma IspOptionsCanonical(rows: seq<IspStatRow>, other: seq<string>)
    requires Text.StrictlySorted(other)
    requires forall x :: x in other <==> exists i :: 0 <= i < |rows| && rows[i].isp == x
    ensures other == IspOptions(rows)
  {
    var isps := IspOptions(rows);
    assert Text.Elems(other) == Text.Elems(isps);
    Text.StrictlySortedUnique(other, isps);
  }

  /** The dashboard's state. */
  datatype Dash = Dash(
    serviceStats: seq<ServiceStatRow>,
    ispStats: seq<IspStatRow>,
    totalChecks: int,
    isps: seq<string>,
    loading: bool)

  /** The statistics body's members, each possibly missing or null. */
  datatype StatsData = StatsData(
    serviceStats: Option<seq<ServiceStatRow>>,
    ispStats: Option<seq<IspStatRow>>,
    totalChecks: Option<int>)

  /** The fetch answered non-OK, answered OK with an unreadable body, or
      answered OK with a body. */
  datatype StatsReply = NotOk | Unreadable | Fetched(data: StatsData)

  /** The dashboard as first rendered: empty tables, no count, no options,
      loading. */
  function InitialDash(): (d: Dash)
    ensures d.serviceStats == [] && d.ispStats == [] && d.totalChecks == 0
    ensures d.isps == [] && d.loading
  {
    Dash([], [], 0, [], true)
  }

  /** A fetch that ends loading: a readable reply to a filtered fetch, or
      to an unfiltered one that carries ISP rows. */
  predicate EndsLoading(filter: string, reply: StatsReply)
  {
    reply.Fetched? && (filter != "" || reply.data.ispStats.Some?)
  }

  /** `fetchStats` with filter `filter` (empty for none): a non-OK or
      unreadable reply changes nothing; otherwise the tables and count take
      the reply's values (empty or zero when missing). Only an unfiltered
      fetch recomputes the ISP options; when its ISP rows are missing the
      recomputation throws, leaving the options and the loading flag as they
      were. */
  function ApplyStats(d: Dash, filter: string, reply: StatsReply): (d': Dash)
    ensures !reply.Fetched? ==> d' == d
    ensures reply.Fetched? ==>
      && d'.serviceStats == reply.data.serviceStats.GetOr([])
      && d'.ispStats == reply.data.ispStats.GetOr([])
      && d'.totalChecks == reply.data.totalChecks.GetOr(0)
    ensures reply.Fetched? && filter != "" ==> d'.isps == d.isps && !d'.loading
    ensures reply.Fetched? && filter == "" && reply.data.ispStats.Some? ==>
      d'.isps == IspOptions(reply.data.ispStats.value) && !d'.loading
    ensures reply.Fetched? && filter == "" && reply.data.ispStats.None? ==>
      d'.isps == d.isps && d'.loading == d.loading
  {
    match reply
    case NotOk => d
    case Unreadable => d
    case Fetched(data) =>
      var d1 := d.(serviceStats := data.serviceStats.GetOr([]),
                   ispStats := data.ispStats.GetOr([]),
                   totalChecks := data.totalChecks.GetOr(0));
      if filter != "" then d1.(loading := false)
      else match data.ispStats
        case Some(rows) => d1.(isps := IspOptions(rows), loading := false)
        case None => d1
  }

  /** Selecting an ISP keeps the full option list: after an unfiltered fetch,
      any sequence of filtered fetches leaves the options those of the
      unfiltered rows. */
  lemma {:induction false} FilteredFetchesKeepOptions(d: Dash, rows: seq<IspStatRow>, data: StatsData,
                                                     filters: seq<string>, replies: seq<StatsReply>)
    requires data.ispStats == Some(rows)
    requires |filters| == |replies|
    requires forall k :: 0 <= k < |filters| ==> filters[k] != ""
    ensures FoldStats(ApplyStats(d, "", Fetched(data)), filters, replies).isps == IspOptions(rows)
    decreases |filters|
  {
    if |filters| > 0 {
      var d1 := ApplyStats(d, "", Fetched(data));
      FilteredFetchesKeepOptionsFrom(d1, filters, replies);
    }
  }

  lemma {:induction false} FilteredFetchesKeepOptionsFrom(d: Dash, filters: seq<string>, replies: seq<StatsReply>)
    requires |filters| == |replies|
    requires forall k :: 0 <= k < |filters| ==> filters[k] != ""
    ensures FoldStats(d, filters, replies).isps == d.isps
    decreases |filters|
  {
    if |filters| > 0 {
      FilteredFetchesKeepOptionsFrom(ApplyStats(d, filters[0], replies[0]), filters[1..], replies[1..]);
    }
  }

  /** Fetches applied one after another. */
  function FoldStats(d: Dash, filters: seq<string>, replies: seq<StatsReply>): (d': Dash)
    requires |filters| == |replies|
    decreases |filters|
  {
    if |filters| == 0 then d
    else FoldStats(ApplyStats(d, filters[0], replies[0]), filters[1..], replies[1..])
  }

  /** Loading is still shown after a sequence of fetches exactly when it was
      shown before and none of them ended it. */
  lemma {:induction false} FoldLoading(d: Dash, filters: seq<string>, replies: seq<StatsReply>)
    requires |filters| == |replies|
    ensures FoldStats(d, filters, replies).loading <==>
      d.loading && forall k :: 0 <= k < |filters| ==> !EndsLoading(filters[k], replies[k])
    decreases |filters|
  {
    if |filters| > 0 {
      var d1 := ApplyStats(d, filters[0], replies[0]);
      FoldLoading(d1, filters[1..], replies[1..]);
      assert d1.loading <==> d.loading && !EndsLoading(filters[0], replies[0]);
      assert forall k :: 1 <= k < |filters| ==> filters[1..][k - 1] == filters[k] && replies[1..][k - 1] == replies[k];
    }
  }

  /** From the first render, the dashboard shows "Loading..." until the first
      fetch that ends loading: failed and unreadable replies, and unfiltered
      replies without ISP rows, leave it loading. */
  lemma LoadingUntilFirstSettledFetch(filters: seq<string>, replies: seq<StatsReply>)
    requires |filters| == |replies|
    ensures FoldStats(InitialDash(), filters, replies).loading <==>
      forall k :: 0 <= k < |filters| ==> !EndsLoading(filters[k], replies[k])
  {
    FoldLoading(InitialDash(), filters, replies);
  }
}
