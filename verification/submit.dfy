/** The submission endpoint (app/api/submit/route.ts) as one step function
    over an abstract store: validate the batch, identify the caller by a
    hash of its address, refuse a second batch within the hour, enrich with
    the ISP lookup, append one row per result to the check log and record
    the time of the accepted batch. The clock, the lookup and the database
    outcomes are inputs; the address hash is a parameter. */
module Submit {
  import opened Wrappers
  import opened Numbers
  import Text

  const FallbackIp: string := "0.0.0.0"
  const UnknownIsp: string := "Unknown ISP"

  const InvalidResults: string := "Invalid results"
  const RateLimited: string := "rate_limited"
  const DatabaseError: string := "Database error"

  // ---------------------------------------------------------------------
  // Client identity
  // ---------------------------------------------------------------------

  /** The two request headers read; `None` is an absent header. */
  datatype Headers = Headers(forwardedFor: Option<string>, realIp: Option<string>)

  /** `getClientIp`: a non-empty forwarded-for header gives its first
      comma-separated entry, trimmed; otherwise the real-ip header, even when
      it is empty; otherwise the unroutable placeholder address. */
  function ClientIp(h: Headers): (ip: string)
    ensures h.forwardedFor.Some? && h.forwardedFor.value != [] ==>
      && ',' !in ip
      && Text.IsTrimOf(Text.FirstSegment(h.forwardedFor.value, ','), ip)
    ensures (h.forwardedFor.None? || h.forwardedFor.value == []) && h.realIp.Some? ==>
      ip == h.realIp.value
    ensures (h.forwardedFor.None? || h.forwardedFor.value == []) && h.realIp.None? ==>
      ip == FallbackIp
  {
    match h.forwardedFor
    case Some(f) =>
      if f != [] then
        var seg := Text.FirstSegment(f, ',');
        var ip := Text.Trim(seg);
        assert forall k :: 0 <= k < |ip| ==> ip[k] in seg;
        ip
      else h.realIp.GetOr(FallbackIp)
    case None => h.realIp.GetOr(FallbackIp)
  }

  // ---------------------------------------------------------------------
  // Payload
  // ---------------------------------------------------------------------

  /** A submitted response time: the field may be missing, null, or a number. */
  datatype TimeField = Absent | Null | Ms(ms: int)

  datatype Submitted = Submitted(
    serviceName: string,
    serviceUrl: string,
    isBlocked: bool,
    responseTimeMs: TimeField)

  /** The `results` member of the request body: missing (or any falsy
      value), present but not an array, or an array of results. */
  datatype Payload = NoResults | NotAList | Results(items: seq<Submitted>)

  /** The batch is acceptable only as a non-empty array. */
  predicate IsValid(p: Payload)
  {
    p.Results? && |p.items| > 0
  }

  // ---------------------------------------------------------------------
  // Rate limit
  // ---------------------------------------------------------------------

  /** The rate-limit decision for a caller whose last accepted batch (if
      any) was at `last`, as the endpoint computes it: the clock is read once
      to decide (`now`) and again to compute the wait (`later`). Refused while
      the record is less than an hour older than `now`, so a record exactly
      one hour old is accepted; the wait is the whole seconds left at
      `later`, rounded up. A wait of zero or less is possible when the hour
      runs out between the two readings. */
  function Throttle(last: Option<int>, now: int, later: int): (retryAfter: Option<int>)
    ensures retryAfter.Some? <==> last.Some? && last.value > now - HourMs
    ensures retryAfter.Some? ==>
      && retryAfter.value * 1000 - 1000 < last.value + HourMs - later <= retryAfter.value * 1000
      && (now <= later < now + 1000 ==> retryAfter.value >= 0)
      && (later == now ==> retryAfter.value >= 1)
      && (last.value <= later ==> retryAfter.value <= 3600)
  {
    match last
    case Some(t) =>
      if t > now - HourMs then Some(CeilDiv(t + HourMs - later, 1000)) else None
    case None => None
  }

  /** The hour can run out between the two readings: a record 3599.999
      seconds old at the first reading, with the second reading a
      millisecond later, is refused with a wait of zero seconds. */
  lemma HourRunsOutBetweenReadings()
    ensures Throttle(Some(1 - HourMs), 0, 1) == Some(0)
  {
  }

  /** The decision with one clock reading for both the comparison and the
      wait: every refusal waits at least one second, and at most an hour when
      the record is not in the future. */
  function ThrottleOneReading(last: Option<int>, now: int): (retryAfter: Option<int>)
    ensures retryAfter.Some? <==> last.Some? && last.value > now - HourMs
    ensures retryAfter.Some? ==>
      && retryAfter.value >= 1
      && retryAfter.value * 1000 - 1000 < last.value + HourMs - now <= retryAfter.value * 1000
      && (last.value <= now ==> retryAfter.value <= 3600)
  {
    Throttle(last, now, now)
  }

  // ---------------------------------------------------------------------
  // Enrichment
  // ---------------------------------------------------------------------

  /** The ISP lookup: it failed (threw or timed out), answered with a
      non-OK status, or answered with fields that may each be missing. */
  datatype Lookup =
    | LookupFailed
    | LookupNotOk
    | LookupOk(isp: Option<string>, city: Option<string>, regionName: Option<string>)

  datatype Enrichment = Enrichment(isp: string, city: string, state: string)

  /** The ISP, city and state stored with the batch: the placeholders
      ("Unknown ISP" and empty strings) unless the lookup answered OK, in
      which case each field is its answer, or its placeholder when the answer
      lacks it. */
  function Enrich(l: Lookup): (e: Enrichment)
    ensures !l.LookupOk? ==> e == Enrichment(UnknownIsp, "", "")
    ensures l.LookupOk? && l.isp.Some? ==> e.isp == l.isp.value
    ensures l.LookupOk? && l.isp.None? ==> e.isp == UnknownIsp
    ensures l.LookupOk? && l.city.Some? ==> e.city == l.city.value
    ensures l.LookupOk? && l.city.None? ==> e.city == ""
    ensures l.LookupOk? && l.regionName.Some? ==> e.state == l.regionName.value
    ensures l.LookupOk? && l.regionName.None? ==> e.state == ""
  {
    match l
    case LookupOk(isp, city, region) =>
      Enrichment(isp.GetOr(UnknownIsp), city.GetOr(""), region.GetOr(""))
    case _ => Enrichment(UnknownIsp, "", "")
  }

  // ---------------------------------------------------------------------
  // Rows and store
  // ---------------------------------------------------------------------

  /** A persisted check: the caller's address hash, never the address. */
  datatype Row = Row(
    ipHash: string,
    isp: string,
    city: string,
    state: string,
    serviceName: string,
    serviceUrl: string,
    isBlocked: bool,
    responseTimeMs: Option<int>)

  /** `?? null`: a missing time is stored as null, like an explicit null. */
  function TimeOrNull(t: TimeField): (r: Option<int>)
    ensures r.Some? <==> t.Ms?
    ensures t.Ms? ==> r.value == t.ms
  {
    if t.Ms? then Some(t.ms) else None
  }

  /** One row per submitted result, in submission order, all carrying the
      same hash, ISP, city and state; the service fields copied from the
      result. */
  function BuildRows(ipHash: string, e: Enrichment, items: seq<Submitted>): (rows: seq<Row>)
    ensures |rows| == |items|
    ensures forall i :: 0 <= i < |rows| ==>
      && rows[i].ipHash == ipHash
      && rows[i].isp == e.isp && rows[i].city == e.city && rows[i].state == e.state
      && rows[i].serviceName == items[i].serviceName
      && rows[i].serviceUrl == items[i].serviceUrl
      && rows[i].isBlocked == items[i].isBlocked
      && rows[i].responseTimeMs == TimeOrNull(items[i].responseTimeMs)
  {
    seq(|items|, i requires 0 <= i < |items| =>
      Row(ipHash, e.isp, e.city, e.state,
          items[i].serviceName, items[i].serviceUrl, items[i].isBlocked,
          TimeOrNull(items[i].responseTimeMs)))
  }

  /** The two persisted collections: the time of the last accepted batch per
      address hash, and the append-only log of checks. */
  datatype Store = Store(rateLimits: map<string, int>, checks: seq<Row>)

  /** What the outside world does during one request: the clock reading
      that decides the rate limit, the later one that computes the wait,
      whether the rate-limit read succeeded (a failed read looks like no
      record), the ISP lookup, whether the batch insert succeeded, whether
      the rate-limit upsert succeeded (its outcome is ignored) and the time
      it records. */
  datatype Effects = Effects(
    now: int,
    later: int,
    rateReadOk: bool,
    lookup: Lookup,
    insertOk: bool,
    upsertOk: bool,
    upsertTime: int)

  datatype Body =
    | Error(error: string)
    | Throttled(error: string, retryAfter: int)
    | Accepted(isp: string, city: string, state: string)

  datatype Reply = Reply(status: int, body: Body)

  datatype Step = Step(reply: Reply, store: Store)

  /** The record the rate-limit read returns for `ipHash`. */
  function LastCheck(store: Store, ipHash: string, readOk: bool): (last: Option<int>)
    ensures last.Some? <==> readOk && ipHash in store.rateLimits
    ensures last.Some? ==> last.value == store.rateLimits[ipHash]
  {
    if readOk && ipHash in store.rateLimits then Some(store.rateLimits[ipHash]) else None
  }

  /** The rate-limit decision for the request's caller. */
  function Decision(store: Store, headers: Headers, hash: string -> string, fx: Effects): (retryAfter: Option<int>)
    ensures retryAfter.Some? <==>
      var last := LastCheck(store, hash(ClientIp(headers)), fx.rateReadOk);
      last.Some? && last.value > fx.now - HourMs
  {
    Throttle(LastCheck(store, hash(ClientIp(headers)), fx.rateReadOk), fx.now, fx.later)
  }

  /** `POST`: the reply and the store after one submission. */
  function HandleSubmit(store: Store, headers: Headers, payload: Payload,
                        hash: string -> string, fx: Effects): (out: Step)
    // 400: the batch is missing, not a list or empty; nothing is read or written
    ensures out.reply.status == 400 <==> !IsValid(payload)
    ensures !IsValid(payload) ==> out.reply.body == Error(InvalidResults) && out.store == store
    // 429: a record less than an hour old; the wait computed; nothing is written
    ensures out.reply.status == 429 <==> IsValid(payload) && Decision(store, headers, hash, fx).Some?
    ensures out.reply.status == 429 ==>
      && out.reply.body.Throttled?
      && out.reply.body.error == RateLimited
      && out.reply.body.retryAfter == Decision(store, headers, hash, fx).value
      && out.store == store
    // 500: the insert failed; the rate limit is not recorded
    ensures out.reply.status == 500 <==>
      IsValid(payload) && Decision(store, headers, hash, fx).None? && !fx.insertOk
    ensures out.reply.status == 500 ==>
      && out.reply.body == Error(DatabaseError)
      && out.store == store
    // 200: the log grows by one row per result and the hash is stamped
    ensures out.reply.status == 200 <==>
      IsValid(payload) && Decision(store, headers, hash, fx).None? && fx.insertOk
    ensures out.reply.status == 200 ==>
      && var ipHash := hash(ClientIp(headers));
      && var e := Enrich(fx.lookup);
      && out.store.checks == store.checks + BuildRows(ipHash, e, payload.items)
      && |out.store.checks| == |store.checks| + |payload.items|
      && out.reply.body == Accepted(e.isp, e.city, e.state)
      && (fx.upsertOk ==> out.store.rateLimits == store.rateLimits[ipHash := fx.upsertTime])
      && (!fx.upsertOk ==> out.store.rateLimits == store.rateLimits)
    ensures out.reply.status in {200, 400, 429, 500}
  {
    if !IsValid(payload) then
      Step(Reply(400, Error(InvalidResults)), store)
    else
      var ipHash := hash(ClientIp(headers));
      match Decision(store, headers, hash, fx)
      case Some(retryAfter) =>
        Step(Reply(429, Throttled(RateLimited, retryAfter)), store)
      case None =>
        var e := Enrich(fx.lookup);
        var rows := BuildRows(ipHash, e, payload.items);
        if !fx.insertOk then
          Step(Reply(500, Error(DatabaseError)), store)
        else
          var limits := if fx.upsertOk then store.rateLimits[ipHash := fx.upsertTime]
                        else store.rateLimits;
          Step(Reply(200, Accepted(e.isp, e.city, e.state)), Store(limits, store.checks + rows))
  }

  // ---------------------------------------------------------------------
  // Properties across requests
  // ---------------------------------------------------------------------

  /** An accepted submission leaves every other caller's rate-limit record
      and every earlier log row as it was. */
  lemma AcceptedTouchesOnlyCaller(store: Store, headers: Headers, payload: Payload,
                                  hash: string -> string, fx: Effects, other: string)
    requires HandleSubmit(store, headers, payload, hash, fx).reply.status == 200
    requires other != hash(ClientIp(headers))
    ensures var s' := HandleSubmit(store, headers, payload, hash, fx).store;
      && (other in s'.rateLimits <==> other in store.rateLimits)
      && (other in store.rateLimits ==> s'.rateLimits[other] == store.rateLimits[other])
      && s'.checks[..|store.checks|] == store.checks
  {
  }

  /** Read after write: after an accepted batch whose time was recorded,
      the caller's record reads back as that time; every other caller's
      record reads as before, and so does the caller's when the upsert
      failed. */
  lemma StampReadsBack(store: Store, headers: Headers, payload: Payload,
                       hash: string -> string, fx: Effects, other: string, readOk: bool)
    requires HandleSubmit(store, headers, payload, hash, fx).reply.status == 200
    ensures var s' := HandleSubmit(store, headers, payload, hash, fx).store;
      var ipHash := hash(ClientIp(headers));
      && (fx.upsertOk ==> LastCheck(s', ipHash, true) == Some(fx.upsertTime))
      && (other != ipHash || !fx.upsertOk ==> LastCheck(s', other, readOk) == LastCheck(store, other, readOk))
  {
  }

  /** Two batches from the same address: once the first is accepted and its
      time recorded, a second one less than an hour later is refused and
      writes nothing. Its wait is at most an hour; it is at least one second
      when both clock readings agree, and never negative when the second
      reading follows the first by less than a second. */
  lemma SecondBatchWithinHourRefused(store: Store, headers: Headers, p1: Payload, p2: Payload,
                                     hash: string -> string, fx1: Effects, fx2: Effects)
    requires HandleSubmit(store, headers, p1, hash, fx1).reply.status == 200
    requires fx1.upsertOk && fx2.rateReadOk
    requires IsValid(p2)
    requires fx1.upsertTime <= fx2.now < fx1.upsertTime + HourMs
    requires fx2.now <= fx2.later
    ensures var s1 := HandleSubmit(store, headers, p1, hash, fx1).store;
      var out := HandleSubmit(s1, headers, p2, hash, fx2);
      && out.reply.status == 429
      && out.reply.body.retryAfter <= 3600
      && (fx2.later < fx2.now + 1000 ==> out.reply.body.retryAfter >= 0)
      && (fx2.later == fx2.now ==> out.reply.body.retryAfter >= 1)
      && out.store == s1
  {
    StampReadsBack(store, headers, p1, hash, fx1, "", true);
  }

  /** Two batches from the same address an hour or more apart are both
      accepted when the database writes succeed. */
  lemma SpacedBatchesAccepted(store: Store, headers: Headers, p1: Payload, p2: Payload,
                              hash: string -> string, fx1: Effects, fx2: Effects)
    requires HandleSubmit(store, headers, p1, hash, fx1).reply.status == 200
    requires fx1.upsertOk
    requires IsValid(p2) && fx2.insertOk
    requires fx2.now >= fx1.upsertTime + HourMs
    ensures HandleSubmit(HandleSubmit(store, headers, p1, hash, fx1).store, headers, p2, hash, fx2).reply.status == 200
  {
    var s1 := HandleSubmit(store, headers, p1, hash, fx1).store;
    var ipHash := hash(ClientIp(headers));
    assert LastCheck(s1, ipHash, fx2.rateReadOk).Some? ==> LastCheck(s1, ipHash, fx2.rateReadOk).value == fx1.upsertTime;
  }
}
