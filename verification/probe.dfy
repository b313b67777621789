/** The reachability probe (lib/detect.ts): one opaque request per registry
    entry, classified as reachable when it settles and blocked when it throws,
    is aborted or times out; all probes run at once and the batch joins them
    back in registry order. Clock readings and the fate of each request are
    inputs. */
module Probe {
  import opened Wrappers
  import opened Registry
  import opened Sets

  /** What happened to one request: it settled (with the clock read before
      issuing it and after it settled), or it threw, was aborted, or hit the
      five-second timeout. */
  datatype Outcome = Settled(start: int, end: int) | Failed

  datatype CheckResult = CheckResult(
    serviceName: string,
    serviceUrl: string,
    isBlocked: bool,
    responseTimeMs: Option<int>)

  /** A progress notification: the probed service's name and its result. */
  datatype Progress = Progress(name: string, result: CheckResult)

  /** A result is blocked exactly when it carries no time. */
  predicate WellFormed(r: CheckResult)
  {
    r.isBlocked <==> r.responseTimeMs.None?
  }

  /** `checkService`: a settled request is reachable with its elapsed time,
      a failed one is blocked without a time; name and address are copied. */
  function CheckService(name: string, url: string, outcome: Outcome): (r: CheckResult)
    ensures r.serviceName == name && r.serviceUrl == url
    ensures r.isBlocked <==> outcome.Failed?
    ensures WellFormed(r)
    ensures outcome.Settled? ==> r.responseTimeMs == Some(outcome.end - outcome.start)
  {
    match outcome
    case Settled(start, end) => CheckResult(name, url, false, Some(end - start))
    case Failed => CheckResult(name, url, true, None)
  }

  /** With a clock that does not run backwards, a reachable result has a
      non-negative time. */
  lemma SettledTimeNonNegative(name: string, url: string, start: int, end: int)
    requires start <= end
    ensures CheckService(name, url, Settled(start, end)).responseTimeMs.value >= 0
  {
  }

  /** The result list the batch resolves to: entry `i` probes service `i`
      with outcome `i`. */
  function AllResults(services: seq<Service>, outcomes: seq<Outcome>): (rs: seq<CheckResult>)
    requires |outcomes| == |services|
    ensures |rs| == |services|
  {
    seq(|services|, i requires 0 <= i < |services| =>
      CheckService(services[i].name, services[i].url, outcomes[i]))
  }

  /** The order in which the probes complete: every index below `n`, each once. */
  predicate IsCompletionOrder(order: seq<nat>, n: nat)
  {
    && |order| == n
    && (forall k :: 0 <= k < |order| ==> order[k] < n)
    && (forall k, l :: 0 <= k < l < |order| ==> order[k] != order[l])
  }

  /** The progress notifications, in completion order. */
  function ProgressEvents(services: seq<Service>, outcomes: seq<Outcome>, order: seq<nat>): (es: seq<Progress>)
    requires |outcomes| == |services|
    requires IsCompletionOrder(order, |services|)
    ensures |es| == |order|
  {
    seq(|order|, k requires 0 <= k < |order| =>
      Progress(services[order[k]].name,
               CheckService(services[order[k]].name, services[order[k]].url, outcomes[order[k]])))
  }

  /** `runAllChecks`: probes complete in `order`; each completion fires a
      progress notification and fills its own slot, and once every probe has
      completed the slots are read back in registry order. */
  method RunAllChecks(services: seq<Service>, outcomes: seq<Outcome>, order: seq<nat>)
    returns (results: seq<CheckResult>, events: seq<Progress>)
    requires |outcomes| == |services|
    requires IsCompletionOrder(order, |services|)
    ensures |results| == |services|
    ensures forall i :: 0 <= i < |services| ==>
      && results[i].serviceName == services[i].name
      && results[i].serviceUrl == services[i].url
      && (results[i].isBlocked <==> outcomes[i].Failed?)
      && WellFormed(results[i])
    ensures results == AllResults(services, outcomes)
    ensures |events| == |services|
    ensures forall k :: 0 <= k < |events| ==>
      events[k] == Progress(services[order[k]].name, results[order[k]])
    ensures events == ProgressEvents(services, outcomes, order)
  {
    var n := |services|;
    var slots: seq<Option<CheckResult>> := seq(n, i => None);
    events := [];
    var done := 0;
    while done < n
      invariant 0 <= done <= n
      invariant |slots| == n
      invariant |events| == done
      invariant forall i :: 0 <= i < n ==>
        (slots[i].Some? <==> i in order[..done])
      invariant forall i :: 0 <= i < n && slots[i].Some? ==>
        slots[i].value == CheckService(services[i].name, services[i].url, outcomes[i])
      invariant events == ProgressEvents(services, outcomes, order)[..done]
    {
      var i := order[done];
      var r := CheckService(services[i].name, services[i].url, outcomes[i]);
      events := events + [Progress(services[i].name, r)];
      slots := slots[i := Some(r)];
      assert order[..done + 1] == order[..done] + [i];
      done := done + 1;
    }
    CompletionOrderCovers(order, n);
    assert order[..n] == order;
    results := seq(n, i requires 0 <= i < n && slots[i].Some? => slots[i].value);
  }

  // ---------------------------------------------------------------------
  // Every probe completes exactly once
  // ---------------------------------------------------------------------

  function IndexSet(order: seq<nat>): (r: set<nat>)
  {
    set k | 0 <= k < |order| :: order[k]
  }

  /** The indices below `n`. */
  function Below(n: nat): (r: set<nat>)
    ensures |r| == n
    ensures forall i: int :: i in r <==> 0 <= i < n
  {
    if n == 0 then {} else Below(n - 1) + {n - 1}
  }

  lemma {:induction false} DistinctIndexSetSize(order: seq<nat>)
    requires forall k, l :: 0 <= k < l < |order| ==> order[k] != order[l]
    ensures |IndexSet(order)| == |order|
  {
    if |order| > 0 {
      var p := order[..|order| - 1];
      var last := order[|order| - 1];
      DistinctIndexSetSize(p);
      assert IndexSet(order) == IndexSet(p) + {last} by {
        forall x | x in IndexSet(order) ensures x in IndexSet(p) + {last} {
          var k :| 0 <= k < |order| && order[k] == x;
          if k < |order| - 1 { assert p[k] == x; }
        }
      }
      assert last !in IndexSet(p);
    }
  }

  /** Pigeonhole: `n` distinct indices below `n` are all of them, so every
      service is probed and its slot filled. */
  lemma CompletionOrderCovers(order: seq<nat>, n: nat)
    requires IsCompletionOrder(order, n)
    ensures forall i :: 0 <= i < n ==> i in order
  {
    DistinctIndexSetSize(order);
    assert IndexSet(order) <= Below(n);
    SubsetOfEqualSize(IndexSet(order), Below(n));
    forall i | 0 <= i < n ensures i in order {
      assert i in Below(n);
      var k :| 0 <= k < |order| && order[k] == i;
    }
  }

  /** How many notifications in `events` name `name`. */
  function Reports(events: seq<Progress>, name: string): (count: nat)
  {
    if |events| == 0 then 0
    else (if events[0].name == name then 1 else 0) + Reports(events[1..], name)
  }

  lemma {:induction false} ReportsNone(events: seq<Progress>, name: string)
    requires forall k :: 0 <= k < |events| ==> events[k].name != name
    ensures Reports(events, name) == 0
  {
    if |events| > 0 {
      ReportsNone(events[1..], name);
    }
  }

  lemma {:induction false} ReportsOne(events: seq<Progress>, name: string, k0: nat)
    requires k0 < |events| && events[k0].name == name
    requires forall k :: 0 <= k < |events| && k != k0 ==> events[k].name != name
    ensures Reports(events, name) == 1
  {
    if k0 == 0 {
      ReportsNone(events[1..], name);
    } else {
      ReportsOne(events[1..], name, k0 - 1);
    }
  }

  /** For a registry with distinct names, each service is reported exactly
      once, and that report carries the result the batch returns for it,
      whatever the completion order. */
  lemma ProgressOncePerService(services: seq<Service>, outcomes: seq<Outcome>, order: seq<nat>, i: nat)
    requires |outcomes| == |services|
    requires IsCompletionOrder(order, |services|)
    requires NamesDistinct(services)
    requires i < |services|
    ensures Reports(ProgressEvents(services, outcomes, order), services[i].name) == 1
    ensures exists k :: (0 <= k < |order| && order[k] == i
      && ProgressEvents(services, outcomes, order)[k] == Progress(services[i].name, AllResults(services, outcomes)[i]))
  {
    var es := ProgressEvents(services, outcomes, order);
    CompletionOrderCovers(order, |services|);
    assert i in order;
    var k0 :| 0 <= k0 < |order| && order[k0] == i;
    forall k | 0 <= k < |es| && k != k0 ensures es[k].name != services[i].name {
      assert order[k] != i;
    }
    ReportsOne(es, services[i].name, k0);
  }
}
