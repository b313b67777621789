/** The checker panel (components/ServiceChecker.tsx) as a state machine: a
    card state per registry name, driven by "start run", one progress
    notification per probe, and the reply to the submission; plus the
    summary and the rate-limit notice it derives. */
module Checker {
  import opened Wrappers
  import opened Numbers
  import opened Registry
  import opened Probe
  import opened Sets
  import Text
  import Submit

  datatype CardState = Idle | Checking | Ok | Blocked

  datatype IspInfo = IspInfo(isp: string, city: string, state: string)

  datatype View = View(
    cards: map<string, CardState>,
    responseTimes: map<string, Option<int>>,
    isChecking: bool,
    ispInfo: Option<IspInfo>,
    error: Option<string>,
    rateLimited: bool,
    retryAfter: Option<int>)

  /** The panel as first shown: every registry name idle, nothing else set. */
  function Initial(services: seq<Service>): (v: View)
    ensures v.cards.Keys == NameSet(services)
    ensures forall n :: n in v.cards ==> v.cards[n] == Idle
    ensures v.responseTimes == map[]
    ensures !v.isChecking && !v.rateLimited
    ensures v.ispInfo.None? && v.error.None? && v.retryAfter.None?
  {
    View(map n | n in NameSet(services) :: Idle, map[], false, None, None, false, None)
  }

  /** Before any run the summary is withheld: with at least one service,
      some card is idle, so the panel is not done, and nothing is blocked. */
  lemma InitialSummaryPending(services: seq<Service>)
    requires |services| > 0
    ensures !AllDone(Initial(services).cards)
    ensures Summarize(Initial(services).cards, services) == Pending
    ensures BlockedCount(Initial(services).cards) == 0
  {
    var cards := Initial(services).cards;
    assert services[0].name in NameSet(services);
    assert BlockedKeys(cards) == {};
  }

  /** The start of `runCheck`: every registry name checking, response times
      cleared, error, ISP banner and rate-limit flag reset; the previous wait
      is kept (it is only shown while rate-limited). */
  function StartRun(v: View, services: seq<Service>): (v': View)
    ensures v'.cards.Keys == NameSet(services)
    ensures forall n :: n in v'.cards ==> v'.cards[n] == Checking
    ensures v'.responseTimes == map[]
    ensures v'.isChecking && !v'.rateLimited
    ensures v'.ispInfo.None? && v'.error.None?
    ensures v'.retryAfter == v.retryAfter
  {
    View(map n | n in NameSet(services) :: Checking, map[], true, None, None, false, v.retryAfter)
  }

  /** The card state a finished probe shows. */
  function Verdict(r: CheckResult): (s: CardState)
    ensures s == Blocked <==> r.isBlocked
    ensures s == Ok <==> !r.isBlocked
  {
    if r.isBlocked then Blocked else Ok
  }

  /** The progress callback: the named card shows the verdict and its time;
      every other card, time and field is left as it was. */
  function OnProgress(v: View, p: Progress): (v': View)
    ensures v'.cards.Keys == v.cards.Keys + {p.name}
    ensures v'.cards[p.name] == Verdict(p.result)
    ensures forall n :: n in v.cards && n != p.name ==> v'.cards[n] == v.cards[n]
    ensures v'.responseTimes.Keys == v.responseTimes.Keys + {p.name}
    ensures v'.responseTimes[p.name] == p.result.responseTimeMs
    ensures forall n :: n in v.responseTimes && n != p.name ==> v'.responseTimes[n] == v.responseTimes[n]
    ensures v'.(cards := v.cards, responseTimes := v.responseTimes) == v
  {
    v.(cards := v.cards[p.name := Verdict(p.result)],
       responseTimes := v.responseTimes[p.name := p.result.responseTimeMs])
  }

  /** Notifications applied in the order they arrive. */
  function ApplyProgress(v: View, events: seq<Progress>): (v': View)
    decreases |events|
  {
    if |events| == 0 then v else ApplyProgress(OnProgress(v, events[0]), events[1..])
  }

  function EventNames(events: seq<Progress>): (names: set<string>)
  {
    set k | 0 <= k < |events| :: events[k].name
  }

  predicate EventNamesDistinct(events: seq<Progress>)
  {
    forall k, l :: 0 <= k < l < |events| ==> events[k].name != events[l].name
  }

  lemma EventNamesCons(events: seq<Progress>)
    requires |events| > 0
    ensures EventNames(events) == {events[0].name} + EventNames(events[1..])
  {
    var rest := events[1..];
    forall x | x in EventNames(events) ensures x in {events[0].name} + EventNames(rest) {
      var k :| 0 <= k < |events| && events[k].name == x;
      if k > 0 { assert rest[k - 1] == events[k]; }
    }
    forall x | x in EventNames(rest) ensures x in EventNames(events) {
      var k :| 0 <= k < |rest| && rest[k].name == x;
      assert events[k + 1] == rest[k];
    }
  }

  /** Notifications add their names to the cards and times and change no
      field other than those two. */
  lemma {:induction false} ApplyProgressFrame(v: View, events: seq<Progress>)
    ensures var v' := ApplyProgress(v, events);
      && v'.cards.Keys == v.cards.Keys + EventNames(events)
      && v'.responseTimes.Keys == v.responseTimes.Keys + EventNames(events)
      && (forall n :: n in v.cards && n !in EventNames(events) ==> v'.cards[n] == v.cards[n])
      && v'.(cards := v.cards, responseTimes := v.responseTimes) == v
    decreases |events|
  {
    if |events| > 0 {
      ApplyProgressFrame(OnProgress(v, events[0]), events[1..]);
      EventNamesCons(events);
    }
  }

  /** A name no notification mentions keeps its card and its time. */
  lemma {:induction false} ApplyProgressKeeps(v: View, events: seq<Progress>, n: string)
    requires n !in EventNames(events)
    ensures var v' := ApplyProgress(v, events);
      && (n in v'.cards <==> n in v.cards)
      && (n in v.cards ==> v'.cards[n] == v.cards[n])
      && (n in v'.responseTimes <==> n in v.responseTimes)
      && (n in v.responseTimes ==> v'.responseTimes[n] == v.responseTimes[n])
    decreases |events|
  {
    if |events| > 0 {
      EventNamesCons(events);
      ApplyProgressKeeps(OnProgress(v, events[0]), events[1..], n);
    }
  }

  /** After notifications for distinct names, each named card shows its
      notification's verdict and time. */
  lemma {:induction false} ApplyProgressEffect(v: View, events: seq<Progress>)
    requires EventNamesDistinct(events)
    ensures var v' := ApplyProgress(v, events);
      forall k :: 0 <= k < |events| ==>
        && events[k].name in v'.cards && events[k].name in v'.responseTimes
        && v'.cards[events[k].name] == Verdict(events[k].result)
        && v'.responseTimes[events[k].name] == events[k].result.responseTimeMs
    decreases |events|
  {
    if |events| > 0 {
      var e := events[0];
      var rest := events[1..];
      var w := OnProgress(v, e);
      ApplyProgressEffect(w, rest);
      forall k | 0 <= k < |rest| ensures rest[k].name != e.name {
        assert rest[k] == events[k + 1];
      }
      assert e.name !in EventNames(rest);
      var v' := ApplyProgress(w, rest);
      assert v' == ApplyProgress(v, events);
      forall k | 0 <= k < |events|
        ensures events[k].name in v'.cards && events[k].name in v'.responseTimes
        ensures v'.cards[events[k].name] == Verdict(events[k].result)
        ensures v'.responseTimes[events[k].name] == events[k].result.responseTimeMs
      {
        if k == 0 {
          ApplyProgressKeeps(w, rest, e.name);
        } else {
          assert events[k] == rest[k - 1];
        }
      }
    }
  }

  // ---------------------------------------------------------------------
  // Derived values
  // ---------------------------------------------------------------------

  /** `allDone`: every card has a verdict. */
  predicate AllDone(cards: map<string, CardState>)
  {
    forall n :: n in cards ==> cards[n] == Ok || cards[n] == Blocked
  }

  function BlockedKeys(cards: map<string, CardState>): (names: set<string>)
  {
    set n | n in cards && cards[n] == Blocked
  }

  /** `blockedCount`: how many cards show blocked. */
  function BlockedCount(cards: map<string, CardState>): (c: nat)
    ensures c <= |cards|
  {
    SubsetSize(BlockedKeys(cards), cards.Keys);
    |BlockedKeys(cards)|
  }

  /** How many results in a list are blocked. */
  function CountBlocked(rs: seq<CheckResult>): (c: nat)
    ensures c <= |rs|
  {
    if |rs| == 0 then 0
    else CountBlocked(rs[..|rs| - 1]) + (if rs[|rs| - 1].isBlocked then 1 else 0)
  }

  function BlockedNames(services: seq<Service>, rs: seq<CheckResult>): (names: set<string>)
    requires |rs| == |services|
  {
    set i | 0 <= i < |services| && rs[i].isBlocked :: services[i].name
  }

  /** Removing the last entry removes its name from the blocked names, if
      it was there, and nothing else. */
  lemma BlockedNamesSplit(services: seq<Service>, rs: seq<CheckResult>)
    requires |rs| == |services| > 0
    requires NamesDistinct(services)
    ensures var m := |rs| - 1;
      var prev := BlockedNames(services[..m], rs[..m]);
      && BlockedNames(services, rs) == prev + (if rs[m].isBlocked then {services[m].name} else {})
      && services[m].name !in prev
  {
    var m := |rs| - 1;
    var ps := services[..m];
    var prs := rs[..m];
    var prev := BlockedNames(ps, prs);
    forall x | x in BlockedNames(services, rs)
      ensures x in prev + (if rs[m].isBlocked then {services[m].name} else {})
    {
      var i :| 0 <= i < |services| && rs[i].isBlocked && services[i].name == x;
      if i < m { assert ps[i] == services[i] && prs[i] == rs[i]; }
    }
    forall x | x in prev ensures x in BlockedNames(services, rs) {
      var i :| 0 <= i < |ps| && prs[i].isBlocked && ps[i].name == x;
      assert services[i] == ps[i] && rs[i] == prs[i];
    }
  }

  /** With distinct names, the blocked names are as many as the blocked results. */
  lemma {:induction false} BlockedNamesSize(services: seq<Service>, rs: seq<CheckResult>)
    requires |rs| == |services|
    requires NamesDistinct(services)
    ensures |BlockedNames(services, rs)| == CountBlocked(rs)
  {
    if |rs| > 0 {
      var m := |rs| - 1;
      PrefixNamesDistinct(services, m);
      BlockedNamesSize(services[..m], rs[..m]);
      BlockedNamesSplit(services, rs);
      var prev := BlockedNames(services[..m], rs[..m]);
      if rs[m].isBlocked {
        assert |prev + {services[m].name}| == |prev| + 1;
      } else {
        assert BlockedNames(services, rs) == prev;
      }
    }
  }

  lemma PrefixNamesDistinct(services: seq<Service>, m: nat)
    requires NamesDistinct(services) && m <= |services|
    ensures NamesDistinct(services[..m])
  {
    var p := services[..m];
    forall i, j | 0 <= i < j < |p| ensures p[i].name != p[j].name {
      assert p[i] == services[i] && p[j] == services[j];
    }
  }

  /** The notifications of a run name every registry entry once each. */
  lemma RunEventsCoverRegistry(services: seq<Service>, outcomes: seq<Outcome>, order: seq<nat>)
    requires |outcomes| == |services|
    requires IsCompletionOrder(order, |services|)
    requires NamesDistinct(services)
    ensures EventNamesDistinct(ProgressEvents(services, outcomes, order))
    ensures EventNames(ProgressEvents(services, outcomes, order)) == NameSet(services)
  {
    var es := ProgressEvents(services, outcomes, order);
    CompletionOrderCovers(order, |services|);
    forall k, l | 0 <= k < l < |es| ensures es[k].name != es[l].name {
      assert order[k] != order[l];
    }
    forall x | x in EventNames(es) ensures x in NameSet(services) {
      var k :| 0 <= k < |es| && es[k].name == x;
      assert services[order[k]].name == x;
    }
    forall x | x in NameSet(services) ensures x in EventNames(es) {
      var i :| 0 <= i < |services| && services[i].name == x;
      assert i in order;
      var k :| 0 <= k < |order| && order[k] == i;
      assert es[k].name == x;
    }
  }

  /** A complete run: after "start run" and one notification per registry
      entry, in any completion order, every registry card shows the verdict
      of its own probe and its time, the panel is done, and the blocked count
      is the number of blocked results. */
  lemma RunSettlesEveryCard(v: View, services: seq<Service>, outcomes: seq<Outcome>, order: seq<nat>)
    requires |outcomes| == |services|
    requires IsCompletionOrder(order, |services|)
    requires NamesDistinct(services)
    ensures var v' := ApplyProgress(StartRun(v, services), ProgressEvents(services, outcomes, order));
      var rs := AllResults(services, outcomes);
      && v'.cards.Keys == NameSet(services)
      && v'.responseTimes.Keys == NameSet(services)
      && (forall i :: 0 <= i < |services| ==>
            && v'.cards[services[i].name] == Verdict(rs[i])
            && v'.responseTimes[services[i].name] == rs[i].responseTimeMs)
      && AllDone(v'.cards)
      && BlockedCount(v'.cards) == CountBlocked(rs)
  {
    var es := ProgressEvents(services, outcomes, order);
    var rs := AllResults(services, outcomes);
    RunEventsCoverRegistry(services, outcomes, order);
    CompletionOrderCovers(order, |services|);
    forall i | 0 <= i < |services|
      ensures Reported(es, Progress(services[i].name, rs[i]))
    {
      assert i in order;
      var k :| 0 <= k < |order| && order[k] == i;
      assert es[k] == Progress(services[i].name, rs[i]);
    }
    SettleFromEvents(StartRun(v, services), services, rs, es);
  }

  /** Some notification in `es` is `p`. */
  predicate Reported(es: seq<Progress>, p: Progress)
  {
    exists k :: 0 <= k < |es| && es[k] == p
  }

  /** From a view whose cards are the registry's and whose times are empty,
      notifications naming every registry entry once, each with that entry's
      result, settle every card. */
  lemma SettleFromEvents(v0: View, services: seq<Service>, rs: seq<CheckResult>, es: seq<Progress>)
    requires |rs| == |services|
    requires NamesDistinct(services)
    requires v0.cards.Keys == NameSet(services) && v0.responseTimes == map[]
    requires EventNamesDistinct(es) && EventNames(es) == NameSet(services)
    requires forall i :: 0 <= i < |services| ==> Reported(es, Progress(services[i].name, rs[i]))
    ensures var v' := ApplyProgress(v0, es);
      && v'.cards.Keys == NameSet(services)
      && v'.responseTimes.Keys == NameSet(services)
      && (forall i :: 0 <= i < |services| ==>
            && v'.cards[services[i].name] == Verdict(rs[i])
            && v'.responseTimes[services[i].name] == rs[i].responseTimeMs)
      && AllDone(v'.cards)
      && BlockedCount(v'.cards) == CountBlocked(rs)
  {
    var v' := ApplyProgress(v0, es);
    SettleEachCard(v0, services, rs, es);
    SettledCards(v'.cards, services, rs);
  }

  /** The card-by-card half of `SettleFromEvents`. */
  lemma SettleEachCard(v0: View, services: seq<Service>, rs: seq<CheckResult>, es: seq<Progress>)
    requires |rs| == |services|
    requires v0.cards.Keys == NameSet(services) && v0.responseTimes == map[]
    requires EventNamesDistinct(es) && EventNames(es) == NameSet(services)
    requires forall i :: 0 <= i < |services| ==> Reported(es, Progress(services[i].name, rs[i]))
    ensures var v' := ApplyProgress(v0, es);
      && v'.cards.Keys == NameSet(services)
      && v'.responseTimes.Keys == NameSet(services)
      && (forall i :: 0 <= i < |services| ==>
            && v'.cards[services[i].name] == Verdict(rs[i])
            && v'.responseTimes[services[i].name] == rs[i].responseTimeMs)
  {
    var v' := ApplyProgress(v0, es);
    ApplyProgressFrame(v0, es);
    ApplyProgressEffect(v0, es);
    forall i | 0 <= i < |services|
      ensures v'.cards[services[i].name] == Verdict(rs[i])
      ensures v'.responseTimes[services[i].name] == rs[i].responseTimeMs
    {
      var k :| 0 <= k < |es| && es[k] == Progress(services[i].name, rs[i]);
    }
  }

  /** Cards keyed by the registry, each showing its own result's verdict,
      are all done and count exactly the blocked results. */
  lemma SettledCards(cards: map<string, CardState>, services: seq<Service>, rs: seq<CheckResult>)
    requires |rs| == |services|
    requires NamesDistinct(services)
    requires cards.Keys == NameSet(services)
    requires forall i :: 0 <= i < |services| ==> cards[services[i].name] == Verdict(rs[i])
    ensures AllDone(cards)
    ensures BlockedCount(cards) == CountBlocked(rs)
  {
    assert BlockedKeys(cards) == BlockedNames(services, rs);
    BlockedNamesSize(services, rs);
  }

  /** The summary under the grid: nothing until every card has a verdict;
      then either "all accessible" or the blocked and accessible counts. */
  datatype Summary = Pending | AllAccessible | SomeBlocked(blocked: nat, accessible: int)

  function Summarize(cards: map<string, CardState>, services: seq<Service>): (s: Summary)
    ensures s.Pending? <==> !AllDone(cards)
    ensures s.AllAccessible? <==> AllDone(cards) && BlockedKeys(cards) == {}
    ensures s.SomeBlocked? ==> s.blocked >= 1 && s.blocked == BlockedCount(cards)
                               && s.blocked + s.accessible == |services|
  {
    if !AllDone(cards) then Pending
    else if BlockedCount(cards) == 0 then AllAccessible
    else SomeBlocked(BlockedCount(cards), |services| - BlockedCount(cards))
  }

  /** While the cards are keyed by registry names only, the blocked count
      never exceeds the registry size, so the accessible count is never
      negative. */
  lemma AccessibleNonNegative(cards: map<string, CardState>, services: seq<Service>)
    requires cards.Keys <= NameSet(services)
    ensures BlockedCount(cards) <= |services|
    ensures Summarize(cards, services).SomeBlocked? ==> Summarize(cards, services).accessible >= 0
  {
    SubsetSize(cards.Keys, NameSet(services));
    NameSetSize(services);
  }

  // ---------------------------------------------------------------------
  // The reply to the submission
  // ---------------------------------------------------------------------

  /** The parsed reply body's fields the panel reads. */
  datatype ReplyBody = ReplyBody(retryAfter: Option<int>, success: bool,
                                 isp: string, city: string, state: string)

  /** The submission either failed to produce a readable reply (network
      error or unparsable body) or came back with a status and body. */
  datatype SubmitReply = Unreachable | Replied(status: int, body: ReplyBody)

  const SubmitFailed: string := "Could not submit results \U{2014} check your connection."

  /** The end of `runCheck`: a 429 sets the rate-limit flag and the wait
      (null when the body lacks one), a success shows the ISP banner, an
      unreadable reply sets the error; the cards are untouched and the run
      is over. */
  function FinishRun(v: View, reply: SubmitReply): (v': View)
    ensures v'.cards == v.cards && v'.responseTimes == v.responseTimes
    ensures !v'.isChecking
    ensures reply.Replied? && reply.status == 429 ==>
      && v'.rateLimited && v'.retryAfter == reply.body.retryAfter
      && v'.ispInfo == v.ispInfo && v'.error == v.error
    ensures reply.Replied? && reply.status != 429 && reply.body.success ==>
      && v'.ispInfo == Some(IspInfo(reply.body.isp, reply.body.city, reply.body.state))
      && v'.rateLimited == v.rateLimited && v'.retryAfter == v.retryAfter && v'.error == v.error
    ensures reply.Replied? && reply.status != 429 && !reply.body.success ==>
      v' == v.(isChecking := false)
    ensures reply.Unreachable? ==>
      v' == v.(isChecking := false, error := Some(SubmitFailed))
  {
    match reply
    case Unreachable => v.(isChecking := false, error := Some(SubmitFailed))
    case Replied(status, body) =>
      if status == 429 then v.(isChecking := false, rateLimited := true, retryAfter := body.retryAfter)
      else if body.success then
        v.(isChecking := false, ispInfo := Some(IspInfo(body.isp, body.city, body.state)))
      else v.(isChecking := false)
  }

  /** The whole of `runCheck`. */
  function Run(v: View, services: seq<Service>, outcomes: seq<Outcome>, order: seq<nat>,
               reply: SubmitReply): (v': View)
    requires |outcomes| == |services|
    requires IsCompletionOrder(order, |services|)
  {
    FinishRun(ApplyProgress(StartRun(v, services), ProgressEvents(services, outcomes, order)), reply)
  }

  /** A run answered with 429 ends rate-limited, with no ISP banner and no
      error, every card settled and the panel ready for another run. */
  lemma RateLimitedRunShowsNoBanner(v: View, services: seq<Service>, outcomes: seq<Outcome>,
                                    order: seq<nat>, body: ReplyBody)
    requires |outcomes| == |services|
    requires IsCompletionOrder(order, |services|)
    requires NamesDistinct(services)
    ensures var v' := Run(v, services, outcomes, order, Replied(429, body));
      && v'.rateLimited && v'.ispInfo.None? && v'.error.None? && !v'.isChecking
      && v'.retryAfter == body.retryAfter
      && AllDone(v'.cards)
  {
    ApplyProgressFrame(StartRun(v, services), ProgressEvents(services, outcomes, order));
    RunSettlesEveryCard(v, services, outcomes, order);
  }

  // ---------------------------------------------------------------------
  // The rate-limit notice
  // ---------------------------------------------------------------------

  /** How long the notice says to wait. */
  datatype Wait = InMinutes(minutes: int) | AnHour

  /** A missing or zero wait reads "an hour"; any other wait in seconds is
      rounded up to whole minutes. */
  function RetryWait(retryAfter: Option<int>): (w: Wait)
    ensures w.AnHour? <==> retryAfter.None? || retryAfter.value == 0
    ensures w.InMinutes? ==>
      w.minutes * 60 - 60 < retryAfter.value <= w.minutes * 60
  {
    match retryAfter
    case Some(s) => if s != 0 then InMinutes(CeilDiv(s, 60)) else AnHour
    case None => AnHour
  }

  /** A wait the server can send for a record not in the future, one second
      to one hour, is shown as one to sixty minutes. */
  lemma ServerWaitInMinutes(seconds: int)
    requires 1 <= seconds <= 3600
    ensures RetryWait(Some(seconds)).InMinutes?
    ensures 1 <= RetryWait(Some(seconds)).minutes <= 60
  {
  }

  /** End to end: when the server refuses a batch because the caller's
      recorded time (not later than the first clock reading) is under an hour
      old, and the second reading does not precede the first, the panel tells
      the caller to wait at most sixty minutes. With both readings equal it
      says one to sixty minutes; with the second under a second after the
      first it says that or "an hour". */
  lemma RefusalShownInMinutes(store: Submit.Store, headers: Submit.Headers, payload: Submit.Payload,
                              hash: string -> string, fx: Submit.Effects)
    requires var ipHash := hash(Submit.ClientIp(headers));
      ipHash in store.rateLimits ==> store.rateLimits[ipHash] <= fx.now
    requires fx.now <= fx.later
    requires Submit.HandleSubmit(store, headers, payload, hash, fx).reply.status == 429
    ensures var w := RetryWait(Some(Submit.HandleSubmit(store, headers, payload, hash, fx).reply.body.retryAfter));
      && (w.InMinutes? ==> w.minutes <= 60)
      && (fx.later < fx.now + 1000 ==> w.AnHour? || 1 <= w.minutes <= 60)
      && (fx.later == fx.now ==> w.InMinutes? && 1 <= w.minutes <= 60)
  {
    var body := Submit.HandleSubmit(store, headers, payload, hash, fx).reply.body;
    if body.retryAfter >= 1 {
      ServerWaitInMinutes(body.retryAfter);
    }
  }

  /** The refusal the panel misreports: a record that turns an hour old
      between the endpoint's two clock readings is refused with a wait of
      zero, and the panel, reading zero as no wait, says to come back in an
      hour. */
  lemma ExpiringRecordShownAsAnHour(store: Submit.Store, headers: Submit.Headers, payload: Submit.Payload,
                                    hash: string -> string, fx: Submit.Effects)
    requires Submit.IsValid(payload) && fx.rateReadOk
    requires hash(Submit.ClientIp(headers)) in store.rateLimits
    requires store.rateLimits[hash(Submit.ClientIp(headers))] == fx.now - HourMs + 1
    requires fx.later == fx.now + 1
    ensures var out := Submit.HandleSubmit(store, headers, payload, hash, fx);
      && out.reply.status == 429
      && out.reply.body.retryAfter == 0
      && RetryWait(Some(out.reply.body.retryAfter)) == AnHour
      && RateLimitNotice(Some(out.reply.body.retryAfter)) == NoticePrefix + "an hour."
  {
  }

  const NoticePrefix: string := "Rate limited \U{2014} you can check again in "
  const MinutesSuffix: string := " minutes."

  /** The notice text: "an hour." when there is no wait; otherwise the
      minutes between the prefix and the unit, rendered as the canonical
      decimal: a minus sign exactly when they are negative, then digits with
      no leading zero that read back as their magnitude. */
  function RateLimitNotice(retryAfter: Option<int>): (text: string)
    ensures NoticePrefix <= text
    ensures RetryWait(retryAfter).AnHour? ==> text == NoticePrefix + "an hour."
    ensures RetryWait(retryAfter).InMinutes? ==>
      && |text| >= |NoticePrefix| + |MinutesSuffix|
      && text[|text| - |MinutesSuffix|..] == MinutesSuffix
      && var m := RetryWait(retryAfter).minutes;
      && var number := text[|NoticePrefix|..|text| - |MinutesSuffix|];
      && var sign := if m < 0 then 1 else 0;
      && |number| > sign
      && (number[0] == '-' <==> m < 0)
      && (forall k :: sign <= k < |number| ==> Text.IsDigit(number[k]))
      && (|number| > sign + 1 ==> number[sign] != '0')
      && Text.DecimalValue(number[sign..]) == (if m < 0 then -m else m)
  {
    match RetryWait(retryAfter)
    case AnHour => NoticePrefix + "an hour."
    case InMinutes(m) =>
      var text := NoticePrefix + Text.IntToDecimal(m) + MinutesSuffix;
      assert text[|NoticePrefix|..|text| - |MinutesSuffix|] == Text.IntToDecimal(m);
      text
  }
}
