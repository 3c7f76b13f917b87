/** One request over several endpoints (client_sdk/http_store.go): rotation, cooldown and
    failover, with the mutex released around every fetch. */
module HttpStore {
  import opened ConfigTypes
  import opened Arithmetic

  /** The fields the mutex guards. */
  datatype Guarded = Guarded(current: nat, failUntil: map<string, Time>)

  /** One fetch: its outcome, when it is marked, when the loop has the mutex again, and what
      other goroutines, if any ran, left in the guarded fields before each of the two. */
  datatype Attempt = Attempt(ok: bool, markAt: Time, relockAt: Time, before: Option<Guarded>, after: Option<Guarded>)

  datatype Fate = Cooling(until: Time) | Failed | Served

  /** The endpoint looked at, the loop's sample of the clock, and what became of it. */
  datatype Visit = Visit(idx: nat, now: Time, fate: Fate)

  datatype Outcome = Success | NoEndpoints | AllFailed | AllCooling

  datatype Request = Request(guarded: Guarded, visits: seq<Visit>, outcome: Outcome)

  predicate InCooldown(failUntil: map<string, Time>, endpoint: string, now: Time) {
    endpoint in failUntil && now < failUntil[endpoint]
  }

  function MarkFailed(g: Guarded, endpoint: string, at: Time, backoff: Time): Guarded {
    g.(failUntil := g.failUntil[endpoint := at + backoff])
  }

  function MarkSuccess(g: Guarded, endpoint: string): Guarded {
    g.(failUntil := g.failUntil - {endpoint})
  }

  function Disturbed(g: Guarded, others: Option<Guarded>): Guarded {
    if others.Some? then others.value else g
  }

  /** The rest of a request that began at `start` and has the mutex at visit i. */
  function From(
    endpoints: seq<string>, backoff: Time, start: nat, i: nat, g: Guarded, now: Time, script: seq<Attempt>, failed: bool): Request
    requires endpoints != [] && i <= |endpoints| && |script| >= |endpoints| - i
    decreases |endpoints| - i
  {
    if i == |endpoints| then Request(g, [], if failed then AllFailed else AllCooling)
    else
      var idx := (start + i) % |endpoints|;
      var endpoint := endpoints[idx];
      if InCooldown(g.failUntil, endpoint, now) then
        var rest := From(endpoints, backoff, start, i + 1, g, now, script, failed);
        After([Visit(idx, now, Cooling(g.failUntil[endpoint]))], rest)
      else
        var attempt := script[0];
        var fetched := Disturbed(g.(current := (idx + 1) % |endpoints|), attempt.before);
        if attempt.ok then Request(MarkSuccess(fetched, endpoint), [Visit(idx, now, Served)], Success)
        else
          var relocked := Disturbed(MarkFailed(fetched, endpoint, attempt.markAt, backoff), attempt.after);
          var rest := From(endpoints, backoff, start, i + 1, relocked, attempt.relockAt, script[1..], true);
          After([Visit(idx, now, Failed)], rest)
  }

  /** The same request with some visits already made. */
  function After(visits: seq<Visit>, r: Request): Request {
    r.(visits := visits + r.visits)
  }

  lemma AfterMore(visits: seq<Visit>, visit: Visit, r: Request)
    ensures After(visits, After([visit], r)) == After(visits + [visit], r)
  {
    assert visits + ([visit] + r.visits) == visits + [visit] + r.visits;
  }

  lemma AfterNothing(visits: seq<Visit>, g: Guarded, outcome: Outcome)
    ensures After(visits, Request(g, [], outcome)) == Request(g, visits, outcome)
    ensures After([], Request(g, visits, outcome)) == Request(g, visits, outcome)
  {
    assert visits + [] == visits && [] + visits == visits;
  }

  class HTTPStore {
    const endpoints: seq<string>
    const failBackoff: Time
    var current: nat
    var failUntil: map<string, Time>

    constructor (endpoints: seq<string>, backoff: Time)
      ensures this.endpoints == endpoints && current == 0 && failUntil == map[]
      ensures failBackoff == if backoff <= 0 then 30 * SECOND else backoff
    {
      this.endpoints := endpoints;
      failBackoff := if backoff <= 0 then 30 * SECOND else backoff;
      current, failUntil := 0, map[];
    }

    method Mark(endpoint: string, ok: bool, at: Time)
      modifies this`failUntil
      ensures Guarded(current, failUntil)
           == if ok then MarkSuccess(Guarded(current, old(failUntil)), endpoint)
              else MarkFailed(Guarded(current, old(failUntil)), endpoint, at, failBackoff)
    {
      if ok {
        failUntil := failUntil - {endpoint};
      } else {
        failUntil := failUntil[endpoint := at + failBackoff];
      }
    }

    /** What other goroutines do while the mutex is free. */
    method Yield(others: Option<Guarded>)
      modifies this`current, this`failUntil
      ensures Guarded(current, failUntil) == Disturbed(Guarded(old(current), old(failUntil)), others)
    {
      if others.Some? {
        current, failUntil := others.value.current, others.value.failUntil;
      }
    }

    method DoRequest(lockAt: Time, script: seq<Attempt>) returns (outcome: Outcome, ghost visits: seq<Visit>)
      requires |script| >= |endpoints|
      modifies this`current, this`failUntil
      ensures endpoints == [] ==>
        outcome == NoEndpoints && visits == [] && current == old(current) && failUntil == old(failUntil)
      ensures endpoints != [] ==>
        Request(Guarded(current, failUntil), visits, outcome)
        == From(endpoints, failBackoff, old(current), 0, Guarded(old(current), old(failUntil)), lockAt, script, false)
    {
      visits := [];
      if |endpoints| == 0 {
        return NoEndpoints, [];
      }
      var start := current;
      var now := lockAt;
      var failed := false;
      var attempts := script;
      ghost var whole := From(endpoints, failBackoff, start, 0, Guarded(current, failUntil), now, script, false);
      AfterNothing(whole.visits, whole.guarded, whole.outcome);
      for i := 0 to |endpoints|
        invariant |attempts| >= |endpoints| - i
        invariant whole
               == After(visits, From(endpoints, failBackoff, start, i, Guarded(current, failUntil), now, attempts, failed))
      {
        var idx := (start + i) % |endpoints|;
        var endpoint := endpoints[idx];
        if endpoint in failUntil && now < failUntil[endpoint] {
          AfterMore(
            visits, Visit(idx, now, Cooling(failUntil[endpoint])),
            From(endpoints, failBackoff, start, i + 1, Guarded(current, failUntil), now, attempts, failed));
          visits := visits + [Visit(idx, now, Cooling(failUntil[endpoint]))];
          continue;
        }
        current := (idx + 1) % |endpoints|;
        var attempt := attempts[0];
        Yield(attempt.before);
        Mark(endpoint, attempt.ok, attempt.markAt);
        if attempt.ok {
          visits := visits + [Visit(idx, now, Served)];
          return Success, visits;
        }
        Yield(attempt.after);
        AfterMore(
          visits, Visit(idx, now, Failed),
          From(endpoints, failBackoff, start, i + 1, Guarded(current, failUntil), attempt.relockAt, attempts[1..], true));
        visits := visits + [Visit(idx, now, Failed)];
        failed := true;
        now, attempts := attempt.relockAt, attempts[1..];
      }
      outcome := if failed then AllFailed else AllCooling;
      AfterNothing(visits, Guarded(current, failUntil), outcome);
    }
  }

  // ----- failover completeness -----

  /** The k-th visit is to the k-th index after the start; all but possibly the last visit
      moved on, because the endpoint was cooling or failed; an error comes only after all n. */
  ghost predicate Complete(n: nat, start: nat, i: nat, r: Request)
    requires n > 0
  {
    && |r.visits| <= n - i
    && (forall k :: 0 <= k < |r.visits| ==> r.visits[k].idx == (start + i + k) % n)
    && (forall k :: 0 <= k < |r.visits| ==> (r.visits[k].fate == Served <==> r.outcome == Success && k == |r.visits| - 1))
    && (forall k :: 0 <= k < |r.visits| && r.visits[k].fate.Cooling? ==> r.visits[k].now < r.visits[k].fate.until)
    && (r.outcome == Success ==> r.visits != [])
    && (r.outcome != Success ==> |r.visits| == n - i)
  }

  /** Why the request ended as it did. */
  ghost predicate Explained(r: Request, failed: bool) {
    && (r.outcome == AllFailed ==> failed || exists k :: 0 <= k < |r.visits| && r.visits[k].fate == Failed)
    && (r.outcome == AllCooling ==> !failed && forall k :: 0 <= k < |r.visits| ==> r.visits[k].fate.Cooling?)
    && r.outcome != NoEndpoints
  }

  lemma PrependVisit(n: nat, start: nat, i: nat, visit: Visit, rest: Request)
    requires i < n && Complete(n, start, i + 1, rest)
    requires visit.idx == (start + i) % n && visit.fate != Served
    requires visit.fate.Cooling? ==> visit.now < visit.fate.until
    ensures Complete(n, start, i, After([visit], rest))
  {
    var r := After([visit], rest);
    forall k | 0 <= k < |r.visits|
      ensures r.visits[k].idx == (start + i + k) % n
      ensures r.visits[k].fate == Served <==> r.outcome == Success && k == |r.visits| - 1
    {
      if k > 0 {
        assert r.visits[k] == rest.visits[k - 1];
        assert start + (i + 1) + (k - 1) == start + i + k;
      }
    }
  }

  lemma {:induction false} FromComplete(
    endpoints: seq<string>, backoff: Time, start: nat, i: nat, g: Guarded, now: Time, script: seq<Attempt>, failed: bool)
    requires endpoints != [] && i <= |endpoints| && |script| >= |endpoints| - i
    ensures Complete(|endpoints|, start, i, From(endpoints, backoff, start, i, g, now, script, failed))
    ensures Explained(From(endpoints, backoff, start, i, g, now, script, failed), failed)
    decreases |endpoints| - i
  {
    if i < |endpoints| {
      var idx := (start + i) % |endpoints|;
      var endpoint := endpoints[idx];
      if InCooldown(g.failUntil, endpoint, now) {
        var rest := From(endpoints, backoff, start, i + 1, g, now, script, failed);
        FromComplete(endpoints, backoff, start, i + 1, g, now, script, failed);
        PrependVisit(|endpoints|, start, i, Visit(idx, now, Cooling(g.failUntil[endpoint])), rest);
        ExplainedPrepend(rest, Visit(idx, now, Cooling(g.failUntil[endpoint])), failed);
      } else if !script[0].ok {
        var fetched := Disturbed(g.(current := (idx + 1) % |endpoints|), script[0].before);
        var relocked := Disturbed(MarkFailed(fetched, endpoint, script[0].markAt, backoff), script[0].after);
        var rest := From(endpoints, backoff, start, i + 1, relocked, script[0].relockAt, script[1..], true);
        FromComplete(endpoints, backoff, start, i + 1, relocked, script[0].relockAt, script[1..], true);
        PrependVisit(|endpoints|, start, i, Visit(idx, now, Failed), rest);
        ExplainedPrepend(rest, Visit(idx, now, Failed), failed);
      }
    }
  }

  lemma ExplainedPrepend(rest: Request, visit: Visit, failed: bool)
    requires Explained(rest, failed || visit.fate == Failed) && visit.fate != Served
    ensures Explained(After([visit], rest), failed)
  {
    var r := After([visit], rest);
    if r.outcome == AllFailed && !failed {
      if visit.fate == Failed {
        assert r.visits[0].fate == Failed;
      } else {
        var k :| 0 <= k < |rest.visits| && rest.visits[k].fate == Failed;
        assert r.visits[k + 1].fate == Failed;
      }
    }
  }

  /** The visit number at which a request from `start` comes to an index. */
  function VisitOf(n: nat, start: nat, idx: nat): nat
    requires start < n && idx < n
  {
    if idx >= start then idx - start else idx + n - start
  }

  lemma VisitsDiffer(n: nat, start: nat, r: Request)
    requires start < n && Complete(n, start, 0, r)
    ensures forall k, m :: 0 <= k < m < |r.visits| ==> r.visits[k].idx != r.visits[m].idx
  {
    forall k, m | 0 <= k < m < |r.visits| ensures r.visits[k].idx != r.visits[m].idx {
      WrapOnce(n, start + k);
      WrapOnce(n, start + m);
    }
  }

  lemma ErrorVisitsAll(n: nat, start: nat, r: Request)
    requires start < n && Complete(n, start, 0, r) && r.outcome != Success
    ensures forall idx: nat :: idx < n ==>
      var k := VisitOf(n, start, idx);
      && k < |r.visits| && r.visits[k].idx == idx
      && (r.visits[k].fate == Failed || (r.visits[k].fate.Cooling? && r.visits[k].now < r.visits[k].fate.until))
  {
    forall idx: nat | idx < n ensures (start + VisitOf(n, start, idx)) % n == idx {
      WrapOnce(n, start + VisitOf(n, start, idx));
    }
  }

  /** Whatever other goroutines do to the cursor and the cooldowns in between: a request looks
      at no index twice, so it makes at most n fetches; and when it returns an error it has
      looked at every index, each of them in cooldown at that moment or failed in this very
      request. */
  lemma FailoverIsComplete(endpoints: seq<string>, backoff: Time, g: Guarded, lockAt: Time, script: seq<Attempt>)
    requires endpoints != [] && g.current < |endpoints| && |script| >= |endpoints|
    ensures
      var n := |endpoints|;
      var r := From(endpoints, backoff, g.current, 0, g, lockAt, script, false);
      && |r.visits| <= n
      && (forall k, m :: 0 <= k < m < |r.visits| ==> r.visits[k].idx != r.visits[m].idx)
      && (r.outcome == Success <==> r.visits != [] && r.visits[|r.visits| - 1].fate == Served)
      && (r.outcome != Success ==> forall idx: nat :: idx < n ==>
            var k := VisitOf(n, g.current, idx);
            && k < |r.visits| && r.visits[k].idx == idx
            && (r.visits[k].fate == Failed || (r.visits[k].fate.Cooling? && r.visits[k].now < r.visits[k].fate.until)))
      && (r.outcome == AllFailed ==> exists k :: 0 <= k < |r.visits| && r.visits[k].fate == Failed)
      && (r.outcome == AllCooling ==> forall k :: 0 <= k < |r.visits| ==> r.visits[k].fate.Cooling?)
  {
    var r := From(endpoints, backoff, g.current, 0, g, lockAt, script, false);
    FromComplete(endpoints, backoff, g.current, 0, g, lockAt, script, false);
    VisitsDiffer(|endpoints|, g.current, r);
    if r.outcome != Success {
      ErrorVisitsAll(|endpoints|, g.current, r);
    }
  }

  /** Other goroutines leave the cursor in range, as this one does. */
  ghost predicate InRange(n: nat, others: Option<Guarded>) {
    others.Some? ==> others.value.current < n
  }

  lemma {:induction false} CursorStaysInRange(
    endpoints: seq<string>, backoff: Time, start: nat, i: nat, g: Guarded, now: Time, script: seq<Attempt>, failed: bool)
    requires endpoints != [] && i <= |endpoints| && |script| >= |endpoints| - i
    requires g.current < |endpoints|
    requires forall k :: 0 <= k < |script| ==> InRange(|endpoints|, script[k].before) && InRange(|endpoints|, script[k].after)
    ensures From(endpoints, backoff, start, i, g, now, script, failed).guarded.current < |endpoints|
    decreases |endpoints| - i
  {
    if i < |endpoints| {
      var idx := (start + i) % |endpoints|;
      var endpoint := endpoints[idx];
      if InCooldown(g.failUntil, endpoint, now) {
        CursorStaysInRange(endpoints, backoff, start, i + 1, g, now, script, failed);
      } else if !script[0].ok {
        var fetched := Disturbed(g.(current := (idx + 1) % |endpoints|), script[0].before);
        var relocked := Disturbed(MarkFailed(fetched, endpoint, script[0].markAt, backoff), script[0].after);
        CursorStaysInRange(endpoints, backoff, start, i + 1, relocked, script[0].relockAt, script[1..], true);
      }
    }
  }
}
