/** Any number of goroutines sharing one HTTPStore (client_sdk/http_store.go): every step is
    one hold of the mutex, at a time of its own. The log keeps what the cooldown and the
    rotation are about. */
module FailoverRuns {
  import opened ConfigTypes
  import opened HttpStore
  import opened Arithmetic

  datatype Event = Admitted(idx: nat, at: Time) | Answered(idx: nat) | Refused(idx: nat, at: Time)

  /** Outside, fetching the endpoint of visit i, or done marking its failure. */
  datatype Phase = Outside | Fetching(start: nat, i: nat) | Marked(start: nat, i: nat)

  datatype Pool = Pool(endpoints: seq<string>, backoff: Time) {
    predicate Valid() {
      endpoints != [] && backoff > 0
    }

    function IndexAt(start: nat, i: nat): nat
      requires endpoints != []
    {
      (start + i) % |endpoints|
    }
  }

  datatype State = State(guarded: Guarded, now: Time, phases: map<nat, Phase>, log: seq<Event>)

  datatype Action = Enter(g: nat, at: Time) | Answer(g: nat, at: Time, ok: bool) | Relock(g: nat, at: Time)

  /** The first visit from i on whose endpoint is not cooling. */
  function FirstOpen(p: Pool, failUntil: map<string, Time>, now: Time, start: nat, i: nat): (k: nat)
    requires p.endpoints != [] && i <= |p.endpoints|
    ensures i <= k <= |p.endpoints|
    ensures k < |p.endpoints| ==> !InCooldown(failUntil, p.endpoints[p.IndexAt(start, k)], now)
    ensures forall j :: i <= j < k ==> InCooldown(failUntil, p.endpoints[p.IndexAt(start, j)], now)
    decreases |p.endpoints| - i
  {
    if i < |p.endpoints| && InCooldown(failUntil, p.endpoints[p.IndexAt(start, i)], now)
    then FirstOpen(p, failUntil, now, start, i + 1)
    else i
  }

  /** The loop of one request goes from visit i straight to that visit: between them it
      changes nothing. */
  lemma {:induction false} LoopSkipsToFirstOpen(
    p: Pool, start: nat, i: nat, g: Guarded, now: Time, script: seq<Attempt>, failed: bool)
    requires p.endpoints != [] && i <= |p.endpoints| && |script| >= |p.endpoints| - i
    ensures
      var k := FirstOpen(p, g.failUntil, now, start, i);
      var here := From(p.endpoints, p.backoff, start, i, g, now, script, failed);
      var there := From(p.endpoints, p.backoff, start, k, g, now, script, failed);
      here.guarded == there.guarded && here.outcome == there.outcome && |here.visits| == (k - i) + |there.visits|
    decreases |p.endpoints| - i
  {
    if i < |p.endpoints| && InCooldown(g.failUntil, p.endpoints[p.IndexAt(start, i)], now) {
      LoopSkipsToFirstOpen(p, start, i + 1, g, now, script, failed);
    }
  }

  predicate Enabled(p: Pool, s: State, a: Action) {
    && p.Valid()
    && a.at >= s.now
    && a.g in s.phases
    && match a
       case Enter(g, _) => s.phases[g].Outside?
       case Answer(g, _, _) => s.phases[g].Fetching?
       case Relock(g, _) => s.phases[g].Marked? && s.phases[g].i < |p.endpoints|
  }

  /** One hold of the mutex in the loop: skip to an open endpoint and admit it, or give up. */
  function Scan(p: Pool, s: State, g: nat, start: nat, i: nat): State
    requires p.Valid() && i <= |p.endpoints|
  {
    var k := FirstOpen(p, s.guarded.failUntil, s.now, start, i);
    if k == |p.endpoints| then s.(phases := s.phases[g := Outside])
    else
      var idx := p.IndexAt(start, k);
      s.(guarded := s.guarded.(current := (idx + 1) % |p.endpoints|),
         phases := s.phases[g := Fetching(start, k)],
         log := s.log + [Admitted(idx, s.now)])
  }

  function Step(p: Pool, s0: State, a: Action): State
    requires Enabled(p, s0, a)
  {
    var s := s0.(now := a.at);
    match a
    case Enter(g, _) => Scan(p, s, g, s.guarded.current, 0)
    case Answer(g, at, ok) =>
      var Fetching(start, i) := s.phases[g];
      var idx := p.IndexAt(start, i);
      if ok then
        s.(guarded := MarkSuccess(s.guarded, p.endpoints[idx]), phases := s.phases[g := Outside],
           log := s.log + [Answered(idx)])
      else
        s.(guarded := MarkFailed(s.guarded, p.endpoints[idx], at, p.backoff), phases := s.phases[g := Marked(start, i)],
           log := s.log + [Refused(idx, at)])
    case Relock(g, _) => Scan(p, s, g, s.phases[g].start, s.phases[g].i + 1)
  }

  /** The start and the first visit of the hold of the mutex that an action is. */
  function StartOf(s: State, a: Action): nat
    requires a.g in s.phases && (a.Enter? || (a.Relock? && s.phases[a.g].Marked?))
  {
    if a.Enter? then s.guarded.current else s.phases[a.g].start
  }

  function VisitOfAction(s: State, a: Action): nat
    requires a.g in s.phases && (a.Enter? || (a.Relock? && s.phases[a.g].Marked?))
  {
    if a.Enter? then 0 else s.phases[a.g].i + 1
  }

  /** The loop at a visit whose endpoint is open. */
  lemma LoopAtOpen(p: Pool, start: nat, k: nat, g: Guarded, now: Time, script: seq<Attempt>, failed: bool)
    requires p.endpoints != [] && k < |p.endpoints| && |script| >= |p.endpoints| - k
    requires !InCooldown(g.failUntil, p.endpoints[p.IndexAt(start, k)], now)
    ensures
      var idx := p.IndexAt(start, k);
      var fetched := Disturbed(g.(current := (idx + 1) % |p.endpoints|), script[0].before);
      var refused := MarkFailed(fetched, p.endpoints[idx], script[0].markAt, p.backoff);
      var r := From(p.endpoints, p.backoff, start, k, g, now, script, failed);
      if script[0].ok then r.guarded == MarkSuccess(fetched, p.endpoints[idx]) && r.outcome == Success
      else
        var rest := From(p.endpoints, p.backoff, start, k + 1, Disturbed(refused, script[0].after),
                         script[0].relockAt, script[1..], true);
        r.guarded == rest.guarded && r.outcome == rest.outcome
  {
  }

  /** The loop of one request and the steps of its goroutine agree, whatever the others do.
      When a hold of the mutex finds no open endpoint, both give up. */
  lemma LoopGivesUpWithSteps(p: Pool, s: State, a: Action, script: seq<Attempt>, failed: bool)
    requires Enabled(p, s, a) && (a.Enter? || a.Relock?)
    requires |script| >= |p.endpoints| - VisitOfAction(s, a)
    requires !Step(p, s, a).phases[a.g].Fetching?
    ensures
      var r := From(p.endpoints, p.backoff, StartOf(s, a), VisitOfAction(s, a), s.guarded, a.at, script, failed);
      r.guarded == Step(p, s, a).guarded && r.outcome == if failed then AllFailed else AllCooling
  {
    LoopSkipsToFirstOpen(p, StartOf(s, a), VisitOfAction(s, a), s.guarded, a.at, script, failed);
  }

  /** Otherwise both admit the same endpoint, k visits after the start. */
  lemma LoopAdmitsWithSteps(p: Pool, s: State, a: Action, script: seq<Attempt>, failed: bool, k: nat)
    requires Enabled(p, s, a) && (a.Enter? || a.Relock?)
    requires |script| >= |p.endpoints| - VisitOfAction(s, a)
    requires k == FirstOpen(p, s.guarded.failUntil, a.at, StartOf(s, a), VisitOfAction(s, a)) < |p.endpoints|
    ensures
      var idx := p.IndexAt(StartOf(s, a), k);
      var fetched := Disturbed(Step(p, s, a).guarded, script[0].before);
      var refused := MarkFailed(fetched, p.endpoints[idx], script[0].markAt, p.backoff);
      var r := From(p.endpoints, p.backoff, StartOf(s, a), VisitOfAction(s, a), s.guarded, a.at, script, failed);
      if script[0].ok then r.guarded == MarkSuccess(fetched, p.endpoints[idx]) && r.outcome == Success
      else
        var rest := From(p.endpoints, p.backoff, StartOf(s, a), k + 1, Disturbed(refused, script[0].after),
                         script[0].relockAt, script[1..], true);
        r.guarded == rest.guarded && r.outcome == rest.outcome
  {
    LoopSkipsToFirstOpen(p, StartOf(s, a), VisitOfAction(s, a), s.guarded, a.at, script, failed);
    LoopAtOpen(p, StartOf(s, a), k, s.guarded, a.at, script, failed);
    StepAdmits(p, s, a, k);
  }

  lemma StepAdmits(p: Pool, s: State, a: Action, k: nat)
    requires Enabled(p, s, a) && (a.Enter? || a.Relock?)
    requires k == FirstOpen(p, s.guarded.failUntil, a.at, StartOf(s, a), VisitOfAction(s, a)) < |p.endpoints|
    ensures Step(p, s, a).phases[a.g] == Fetching(StartOf(s, a), k)
    ensures Step(p, s, a).guarded == s.guarded.(current := (p.IndexAt(StartOf(s, a), k) + 1) % |p.endpoints|)
  {
  }

  /** And once the answer is in (`fetching` is the state it finds), both are done, or both are
      at the next visit with the same guarded fields. */
  lemma LoopAnswersWithSteps(
    p: Pool, s: State, a: Action, script: seq<Attempt>, failed: bool, k: nat, fetching: State)
    requires Enabled(p, s, a) && (a.Enter? || a.Relock?)
    requires |script| >= |p.endpoints| - VisitOfAction(s, a)
    requires Step(p, s, a).phases[a.g] == Fetching(StartOf(s, a), k)
    requires a.g in fetching.phases && fetching.phases[a.g] == Fetching(StartOf(s, a), k)
    requires fetching.guarded == Disturbed(Step(p, s, a).guarded, script[0].before) && fetching.now <= script[0].markAt
    ensures
      var answered := Step(p, fetching, Answer(a.g, script[0].markAt, script[0].ok));
      var r := From(p.endpoints, p.backoff, StartOf(s, a), VisitOfAction(s, a), s.guarded, a.at, script, failed);
      if script[0].ok then
        r.guarded == answered.guarded && r.outcome == Success && answered.phases[a.g] == Outside
      else
        var rest := From(p.endpoints, p.backoff, StartOf(s, a), k + 1, Disturbed(answered.guarded, script[0].after),
                         script[0].relockAt, script[1..], true);
        && answered.phases[a.g] == Marked(StartOf(s, a), k)
        && r.guarded == rest.guarded && r.outcome == rest.outcome
  {
    LoopAdmitsWithSteps(p, s, a, script, failed, k);
  }

  predicate Init(p: Pool, s: State) {
    && s.guarded == Guarded(0, map[]) && s.log == []
    && forall g :: g in s.phases ==> s.phases[g] == Outside
  }

  ghost predicate IsRun(p: Pool, states: seq<State>, actions: seq<Action>) {
    && |states| == |actions| + 1
    && Init(p, states[0])
    && forall k {:trigger actions[k]} :: 0 <= k < |actions| ==>
      Enabled(p, states[k], actions[k]) && states[k + 1] == Step(p, states[k], actions[k])
  }

  /** Whatever the interleaving, the cursor is always the index of an endpoint: so
      HttpStore.FailoverIsComplete holds of a request begun in any reachable state. */
  lemma {:induction false} RunKeepsCursorInRange(p: Pool, states: seq<State>, actions: seq<Action>, k: nat)
    requires p.Valid() && IsRun(p, states, actions) && k <= |actions|
    ensures states[k].guarded.current < |p.endpoints|
  {
    if k > 0 {
      RunKeepsCursorInRange(p, states, actions, k - 1);
      assert states[k] == Step(p, states[k - 1], actions[k - 1]);
    }
  }

  // ----- cooldown -----

  /** An answer of that endpoint after log position a. */
  ghost predicate AnsweredSince(p: Pool, log: seq<Event>, a: nat, b: nat, endpoint: string) {
    exists c :: a < c < b <= |log| && AnswerOf(p, log[c], endpoint)
  }

  predicate AnswerOf(p: Pool, e: Event, endpoint: string) {
    e.Answered? && e.idx < |p.endpoints| && p.endpoints[e.idx] == endpoint
  }

  /** Position b admits an endpoint that position a < b refused less than the backoff before. */
  predicate Violates(p: Pool, log: seq<Event>, a: nat, b: nat) {
    && a < b < |log|
    && log[a].Refused? && log[b].Admitted?
    && log[a].idx < |p.endpoints| && log[b].idx < |p.endpoints|
    && p.endpoints[log[a].idx] == p.endpoints[log[b].idx]
    && log[b].at < log[a].at + p.backoff
  }

  ghost predicate CooldownOk(p: Pool, s: State) {
    && (forall a :: 0 <= a < |s.log| && s.log[a].Refused? ==> RefusalRemembered(p, s, a))
    && (forall a: nat, b: nat :: Violates(p, s.log, a, b) ==> AnsweredSince(p, s.log, a, b, p.endpoints[s.log[a].idx]))
  }

  ghost predicate RefusalRemembered(p: Pool, s: State, a: nat)
    requires a < |s.log| && s.log[a].Refused?
  {
    && s.log[a].idx < |p.endpoints| && s.log[a].at <= s.now
    && var endpoint := p.endpoints[s.log[a].idx];
       || (endpoint in s.guarded.failUntil && s.guarded.failUntil[endpoint] >= s.log[a].at + p.backoff)
       || AnsweredSince(p, s.log, a, |s.log|, endpoint)
  }

  lemma SinceGrows(p: Pool, log: seq<Event>, e: Event, a: nat, b: nat, endpoint: string)
    requires AnsweredSince(p, log, a, b, endpoint) && b <= |log|
    ensures AnsweredSince(p, log + [e], a, b, endpoint)
    ensures AnsweredSince(p, log + [e], a, |log| + 1, endpoint)
  {
    var c :| a < c < b && AnswerOf(p, log[c], endpoint);
    assert (log + [e])[c] == log[c];
  }

  lemma OldViolations(p: Pool, s: State, e: Event, a: nat, b: nat)
    requires CooldownOk(p, s) && Violates(p, s.log + [e], a, b) && b < |s.log|
    ensures AnsweredSince(p, s.log + [e], a, b, p.endpoints[(s.log + [e])[a].idx])
  {
    assert Violates(p, s.log, a, b);
    SinceGrows(p, s.log, e, a, b, p.endpoints[s.log[a].idx]);
  }

  lemma ScanCooldown(p: Pool, s: State, g: nat, start: nat, i: nat)
    requires p.Valid() && CooldownOk(p, s) && i <= |p.endpoints|
    ensures CooldownOk(p, Scan(p, s, g, start, i))
  {
    var s' := Scan(p, s, g, start, i);
    var k := FirstOpen(p, s.guarded.failUntil, s.now, start, i);
    if k < |p.endpoints| {
      var e := Admitted(p.IndexAt(start, k), s.now);
      forall a | 0 <= a < |s'.log| && s'.log[a].Refused? ensures RefusalRemembered(p, s', a) {
        assert s'.log[a] == s.log[a] && RefusalRemembered(p, s, a);
        if AnsweredSince(p, s.log, a, |s.log|, p.endpoints[s.log[a].idx]) {
          SinceGrows(p, s.log, e, a, |s.log|, p.endpoints[s.log[a].idx]);
        }
      }
      forall a: nat, b: nat | Violates(p, s'.log, a, b)
        ensures AnsweredSince(p, s'.log, a, b, p.endpoints[s'.log[a].idx])
      {
        if b < |s.log| {
          OldViolations(p, s, e, a, b);
        } else {
          assert s'.log[a] == s.log[a] && RefusalRemembered(p, s, a);
          SinceGrows(p, s.log, e, a, |s.log|, p.endpoints[s.log[a].idx]);
        }
      }
    }
  }

  lemma AnswerCooldown(p: Pool, s: State, a: Action)
    requires a.Answer? && Enabled(p, s, a) && CooldownOk(p, s)
    ensures CooldownOk(p, Step(p, s, a))
  {
    var s' := Step(p, s, a);
    var e := s'.log[|s.log|];
    var endpoint := p.endpoints[e.idx];
    forall m | 0 <= m < |s'.log| && s'.log[m].Refused? ensures RefusalRemembered(p, s', m) {
      if m < |s.log| {
        assert s'.log[m] == s.log[m] && RefusalRemembered(p, s, m);
        var other := p.endpoints[s.log[m].idx];
        if AnsweredSince(p, s.log, m, |s.log|, other) {
          SinceGrows(p, s.log, e, m, |s.log|, other);
        } else if a.ok && other == endpoint {
          assert AnswerOf(p, s'.log[|s.log|], other);
        }
      }
    }
    forall m: nat, b: nat | Violates(p, s'.log, m, b)
      ensures AnsweredSince(p, s'.log, m, b, p.endpoints[s'.log[m].idx])
    {
      OldViolations(p, s, e, m, b);
    }
  }

  lemma CooldownOkLater(p: Pool, s: State, at: Time)
    requires CooldownOk(p, s) && at >= s.now
    ensures CooldownOk(p, s.(now := at))
  {
    forall a | 0 <= a < |s.log| && s.log[a].Refused? ensures RefusalRemembered(p, s.(now := at), a) {
      assert RefusalRemembered(p, s, a);
    }
  }

  lemma {:induction false} RunCooldown(p: Pool, states: seq<State>, actions: seq<Action>, k: nat)
    requires IsRun(p, states, actions) && k <= |actions|
    ensures CooldownOk(p, states[k])
  {
    if k > 0 {
      RunCooldown(p, states, actions, k - 1);
      var s, a := states[k - 1], actions[k - 1];
      CooldownOkLater(p, s, a.at);
      match a
      case Enter(g, at) => ScanCooldown(p, s.(now := at), g, s.guarded.current, 0);
      case Answer(_, _, _) => AnswerCooldown(p, s, a);
      case Relock(g, at) => ScanCooldown(p, s.(now := at), g, s.phases[g].start, s.phases[g].i + 1);
    }
  }

  /** However requests interleave: an endpoint that failed at t is admitted again before
      t + backoff only if another request got an answer from it in between. */
  lemma NoFetchDuringCooldown(p: Pool, states: seq<State>, actions: seq<Action>, k: nat, a: nat, b: nat)
    requires IsRun(p, states, actions) && k <= |actions|
    requires Violates(p, states[k].log, a, b)
    ensures AnsweredSince(p, states[k].log, a, b, p.endpoints[states[k].log[a].idx])
  {
    RunCooldown(p, states, actions, k);
  }

  /** The last answer or refusal of an endpoint in the log. */
  function LastMark(p: Pool, log: seq<Event>, endpoint: string): Option<Event> {
    if log == [] then None
    else
      var e := log[|log| - 1];
      if !e.Admitted? && e.idx < |p.endpoints| && p.endpoints[e.idx] == endpoint then Some(e)
      else LastMark(p, log[..|log| - 1], endpoint)
  }

  /** The cooldowns are what the last marks say. */
  ghost predicate MarksRemembered(p: Pool, s: State) {
    forall endpoint :: CooldownFrom(s.guarded.failUntil, endpoint) == RefusedUntil(p, LastMark(p, s.log, endpoint))
  }

  function CooldownFrom(failUntil: map<string, Time>, endpoint: string): Option<Time> {
    if endpoint in failUntil then Some(failUntil[endpoint]) else None
  }

  function RefusedUntil(p: Pool, mark: Option<Event>): Option<Time> {
    if mark.Some? && mark.value.Refused? then Some(mark.value.at + p.backoff) else None
  }

  lemma LastMarkOfMore(p: Pool, log: seq<Event>, e: Event, endpoint: string)
    ensures LastMark(p, log + [e], endpoint)
         == if !e.Admitted? && e.idx < |p.endpoints| && p.endpoints[e.idx] == endpoint then Some(e)
            else LastMark(p, log, endpoint)
  {
    assert (log + [e])[..|log|] == log;
  }

  /** One more event in the log, and the cooldowns it leaves. */
  lemma EventRemembered(p: Pool, s: State, s': State, e: Event)
    requires MarksRemembered(p, s) && s'.log == s.log + [e] && e.idx < |p.endpoints|
    requires s'.guarded.failUntil
          == match e
             case Admitted(_, _) => s.guarded.failUntil
             case Answered(idx) => s.guarded.failUntil - {p.endpoints[idx]}
             case Refused(idx, at) => s.guarded.failUntil[p.endpoints[idx] := at + p.backoff]
    ensures MarksRemembered(p, s')
  {
    forall endpoint
      ensures CooldownFrom(s'.guarded.failUntil, endpoint) == RefusedUntil(p, LastMark(p, s'.log, endpoint))
    {
      assert CooldownFrom(s.guarded.failUntil, endpoint) == RefusedUntil(p, LastMark(p, s.log, endpoint));
      LastMarkOfMore(p, s.log, e, endpoint);
    }
  }

  lemma ScanRemembersMarks(p: Pool, s: State, g: nat, start: nat, i: nat)
    requires p.Valid() && i <= |p.endpoints| && MarksRemembered(p, s)
    ensures MarksRemembered(p, Scan(p, s, g, start, i))
  {
    var k := FirstOpen(p, s.guarded.failUntil, s.now, start, i);
    if k < |p.endpoints| {
      EventRemembered(p, s, Scan(p, s, g, start, i), Admitted(p.IndexAt(start, k), s.now));
    }
  }

  lemma StepRemembersMarks(p: Pool, s: State, a: Action)
    requires Enabled(p, s, a) && MarksRemembered(p, s)
    ensures MarksRemembered(p, Step(p, s, a))
  {
    match a
    case Enter(g, at) => ScanRemembersMarks(p, s.(now := at), g, s.guarded.current, 0);
    case Answer(g, at, ok) =>
      var idx := p.IndexAt(s.phases[g].start, s.phases[g].i);
      EventRemembered(p, s, Step(p, s, a), if ok then Answered(idx) else Refused(idx, at));
    case Relock(g, at) => ScanRemembersMarks(p, s.(now := at), g, s.phases[g].start, s.phases[g].i + 1);
  }

  lemma {:induction false} RunRemembersMarks(p: Pool, states: seq<State>, actions: seq<Action>, k: nat)
    requires IsRun(p, states, actions) && k <= |actions|
    ensures MarksRemembered(p, states[k])
  {
    if k > 0 {
      RunRemembersMarks(p, states, actions, k - 1);
      StepRemembersMarks(p, states[k - 1], actions[k - 1]);
    }
  }

  /** In every reachable state, concurrent requests included, an endpoint is passed over at t
      if and only if its last mark is a refusal less than the backoff ago. */
  lemma CoolingExactly(p: Pool, states: seq<State>, actions: seq<Action>, k: nat, endpoint: string, t: Time)
    requires IsRun(p, states, actions) && k <= |actions|
    ensures
      var mark := LastMark(p, states[k].log, endpoint);
      InCooldown(states[k].guarded.failUntil, endpoint, t)
      <==> mark.Some? && mark.value.Refused? && t < mark.value.at + p.backoff
  {
    RunRemembersMarks(p, states, actions, k);
    assert CooldownFrom(states[k].guarded.failUntil, endpoint) == RefusedUntil(p, LastMark(p, states[k].log, endpoint));
  }

  /** An admission at position b of the log, the endpoint's last mark before it, and the time. */
  predicate AdmittedOpen(p: Pool, log: seq<Event>, b: nat)
    requires b < |log|
  {
    log[b].Admitted? && log[b].idx < |p.endpoints| ==>
      var mark := LastMark(p, log[..b], p.endpoints[log[b].idx]);
      !(mark.Some? && mark.value.Refused? && log[b].at < mark.value.at + p.backoff)
  }

  /** So no endpoint is ever admitted within the backoff of a refusal that is its last mark. */
  lemma {:induction false} NeverAdmittedWhileCooling(p: Pool, states: seq<State>, actions: seq<Action>, k: nat, b: nat)
    requires IsRun(p, states, actions) && k <= |actions| && b < |states[k].log|
    ensures AdmittedOpen(p, states[k].log, b)
  {
    if k > 0 {
      var s, a := states[k - 1], actions[k - 1];
      var log := states[k].log;
      assert s.log == log[..|s.log|];
      if b < |s.log| {
        NeverAdmittedWhileCooling(p, states, actions, k - 1, b);
        assert log[..b] == s.log[..b] && log[b] == s.log[b];
      } else if log[b].Admitted? {
        CoolingExactly(p, states, actions, k - 1, p.endpoints[log[b].idx], log[b].at);
      }
    }
  }

  const SOLO := Pool(["e"], 10)

  /** Counterexample: two requests share the only endpoint. One fails at 1, the other gets its
      answer at 2 and clears the mark; at 3 the endpoint is fetched, seven before the end of
      the first one's backoff. */
  lemma AnswerEndsCooldownEarly() returns (states: seq<State>, actions: seq<Action>)
    ensures IsRun(SOLO, states, actions)
    ensures states[|actions|].log == [Admitted(0, 0), Admitted(0, 0), Refused(0, 1), Answered(0), Admitted(0, 3)]
    ensures Violates(SOLO, states[|actions|].log, 2, 4)
  {
    var s0 := State(Guarded(0, map[]), 0, map[0 := Outside, 1 := Outside], []);
    actions := [Enter(0, 0), Enter(1, 0), Answer(0, 1, false), Answer(1, 2, true), Enter(1, 3)];
    var s1 := Step(SOLO, s0, actions[0]);
    var s2 := Step(SOLO, s1, actions[1]);
    var s3 := Step(SOLO, s2, actions[2]);
    var s4 := Step(SOLO, s3, actions[3]);
    var s5 := Step(SOLO, s4, actions[4]);
    states := [s0, s1, s2, s3, s4, s5];
  }

  // ----- requests one after another -----

  /** Never more than one request under way, as from one refresh loop. */
  ghost predicate OneAtATime(s: State) {
    forall g, other :: g in s.phases && other in s.phases && !s.phases[g].Outside? && !s.phases[other].Outside? ==> g == other
  }

  /** An answer directly follows the admission it belongs to, and admissions are in order. */
  ghost predicate LogPaired(p: Pool, log: seq<Event>, now: Time) {
    && (forall c :: 0 <= c < |log| && log[c].Answered? ==>
         c > 0 && log[c - 1].Admitted? && log[c - 1].idx == log[c].idx)
    && (forall c, d :: 0 <= c < d < |log| && log[c].Admitted? && log[d].Admitted? ==> log[c].at <= log[d].at)
    && (forall c :: 0 <= c < |log| && log[c].Admitted? ==> log[c].at <= now && log[c].idx < |p.endpoints|)
  }

  /** Whoever is fetching was admitted last. */
  ghost predicate LastAdmitted(p: Pool, s: State)
    requires p.endpoints != []
  {
    forall g :: g in s.phases && s.phases[g].Fetching? ==>
      && s.log != [] && s.log[|s.log| - 1].Admitted?
      && s.log[|s.log| - 1].idx == p.IndexAt(s.phases[g].start, s.phases[g].i)
  }

  lemma PairedGrows(p: Pool, log: seq<Event>, now: Time, later: Time, e: Event)
    requires LogPaired(p, log, now) && now <= later
    requires e.Answered? ==> log != [] && log[|log| - 1].Admitted? && log[|log| - 1].idx == e.idx
    requires e.Admitted? ==> e.at == later && e.idx < |p.endpoints|
    ensures LogPaired(p, log + [e], later)
  {
  }

  lemma StepPaired(p: Pool, s: State, a: Action)
    requires Enabled(p, s, a) && LogPaired(p, s.log, s.now) && LastAdmitted(p, s)
    ensures LogPaired(p, Step(p, s, a).log, Step(p, s, a).now)
  {
    var s' := Step(p, s, a);
    if s'.log != s.log {
      PairedGrows(p, s.log, s.now, a.at, s'.log[|s.log|]);
      assert s'.log == s.log + [s'.log[|s.log|]];
    }
  }

  lemma StepLastAdmitted(p: Pool, s: State, a: Action)
    requires Enabled(p, s, a) && LastAdmitted(p, s) && OneAtATime(s) && OneAtATime(Step(p, s, a))
    ensures LastAdmitted(p, Step(p, s, a))
  {
    var s' := Step(p, s, a);
    forall g | g in s'.phases && s'.phases[g].Fetching?
      ensures s'.log != [] && s'.log[|s'.log| - 1].Admitted?
      ensures s'.log[|s'.log| - 1].idx == p.IndexAt(s'.phases[g].start, s'.phases[g].i)
    {
      if g != a.g {
        assert s.phases[g].Fetching? && s.phases[a.g].Outside? && s'.phases[a.g].Outside?;
      }
    }
  }

  lemma {:induction false} RunPaired(p: Pool, states: seq<State>, actions: seq<Action>, k: nat)
    requires p.Valid() && IsRun(p, states, actions) && k <= |actions|
    requires forall m :: 0 <= m < |states| ==> OneAtATime(states[m])
    ensures LogPaired(p, states[k].log, states[k].now) && LastAdmitted(p, states[k])
  {
    if k > 0 {
      RunPaired(p, states, actions, k - 1);
      StepPaired(p, states[k - 1], actions[k - 1]);
      StepLastAdmitted(p, states[k - 1], actions[k - 1]);
    }
  }

  /** With requests one after another, no endpoint is fetched during its cooldown at all. */
  lemma {:induction false} SequentialRespectsCooldown(
    p: Pool, states: seq<State>, actions: seq<Action>, k: nat, a: nat, b: nat)
    requires p.Valid() && IsRun(p, states, actions) && k <= |actions|
    requires forall m :: 0 <= m < |states| ==> OneAtATime(states[m])
    ensures !Violates(p, states[k].log, a, b)
    decreases b
  {
    var log := states[k].log;
    if Violates(p, log, a, b) {
      NoFetchDuringCooldown(p, states, actions, k, a, b);
      RunPaired(p, states, actions, k);
      var c :| a < c < b && AnswerOf(p, log[c], p.endpoints[log[a].idx]);
      assert c - 1 != a && Violates(p, log, a, c - 1);
      SequentialRespectsCooldown(p, states, actions, k, a, c - 1);
    }
  }

  // ----- rotation -----

  function Picks(log: seq<Event>): seq<nat> {
    if log == [] then []
    else if log[|log| - 1].Admitted? then Picks(log[..|log| - 1]) + [log[|log| - 1].idx]
    else Picks(log[..|log| - 1])
  }

  ghost predicate Rotating(n: nat, picks: seq<nat>)
    requires n > 0
  {
    && (forall k :: 0 <= k < |picks| ==> picks[k] < n)
    && (forall k :: 0 < k < |picks| ==> picks[k] == (picks[k - 1] + 1) % n)
  }

  /** The picks rotate up to the cursor. */
  ghost predicate RotatesTo(n: nat, picks: seq<nat>, current: nat)
    requires n > 0
  {
    && current < n && Rotating(n, picks)
    && (picks != [] ==> current == (picks[|picks| - 1] + 1) % n)
  }

  /** No cooldown reaches past the present, and no request is between a failure and the next
      endpoint. */
  ghost predicate Recovered(s: State) {
    && (forall endpoint :: endpoint in s.guarded.failUntil ==> s.guarded.failUntil[endpoint] <= s.now)
    && (forall g :: g in s.phases ==> !s.phases[g].Marked?)
  }

  /** The picks since log position `base`. */
  function PicksSince(log: seq<Event>, base: nat): seq<nat>
    requires base <= |log|
  {
    Picks(log[base..])
  }

  ghost predicate HealthyInv(p: Pool, s: State, base: nat)
    requires p.endpoints != []
  {
    && Recovered(s) && base <= |s.log|
    && RotatesTo(|p.endpoints|, PicksSince(s.log, base), s.guarded.current)
  }

  lemma PickNext(n: nat, picks: seq<nat>, current: nat)
    requires n > 0 && RotatesTo(n, picks, current)
    ensures RotatesTo(n, picks + [current], (current + 1) % n)
  {
    WrapOnce(n, current + 1);
  }

  lemma PicksGrow(log: seq<Event>, e: Event, base: nat)
    requires base <= |log|
    ensures PicksSince(log + [e], base)
         == if e.Admitted? then PicksSince(log, base) + [e.idx] else PicksSince(log, base)
  {
    assert (log + [e])[base..] == log[base..] + [e];
    assert (log[base..] + [e])[..|log[base..]|] == log[base..];
  }

  /** Without a cooldown a request is admitted at the cursor. */
  lemma EnterAtCursor(p: Pool, s: State, a: Action)
    requires Enabled(p, s, a) && a.Enter? && Recovered(s) && s.guarded.current < |p.endpoints|
    ensures
      var s' := Step(p, s, a);
      && s'.log == s.log + [Admitted(s.guarded.current, a.at)]
      && s'.guarded == s.guarded.(current := (s.guarded.current + 1) % |p.endpoints|)
      && Recovered(s')
  {
    WrapOnce(|p.endpoints|, s.guarded.current);
    assert p.IndexAt(s.guarded.current, 0) == s.guarded.current;
    assert FirstOpen(p, s.guarded.failUntil, a.at, s.guarded.current, 0) == 0;
  }

  lemma HealthyStep(p: Pool, s: State, a: Action, base: nat)
    requires Enabled(p, s, a) && HealthyInv(p, s, base) && (a.Answer? ==> a.ok)
    ensures HealthyInv(p, Step(p, s, a), base)
  {
    match a
    case Enter(_, at) =>
      EnterAtCursor(p, s, a);
      PicksGrow(s.log, Admitted(s.guarded.current, at), base);
      PickNext(|p.endpoints|, PicksSince(s.log, base), s.guarded.current);
    case Answer(g, _, _) =>
      PicksGrow(s.log, Answered(p.IndexAt(s.phases[g].start, s.phases[g].i)), base);
    case Relock(_, _) =>
  }

  /** From step w on every answer is good. */
  predicate HealthyFrom(actions: seq<Action>, w: nat) {
    forall m :: w <= m < |actions| && actions[m].Answer? ==> actions[m].ok
  }

  lemma {:induction false} HealthyRun(p: Pool, states: seq<State>, actions: seq<Action>, w: nat, k: nat)
    requires p.Valid() && IsRun(p, states, actions) && w <= k <= |actions|
    requires Recovered(states[w]) && HealthyFrom(actions, w)
    ensures HealthyInv(p, states[k], |states[w].log|)
  {
    if k == w {
      RunKeepsCursorInRange(p, states, actions, w);
    } else {
      HealthyRun(p, states, actions, w, k - 1);
      HealthyStep(p, states[k - 1], actions[k - 1], |states[w].log|);
    }
  }

  function Uses(picks: seq<nat>, j: nat): nat {
    if picks == [] then 0 else Uses(picks[..|picks| - 1], j) + (if picks[|picks| - 1] == j then 1 else 0)
  }

  /** How often the rotation has passed from the last index to the first. */
  function Laps(n: nat, picks: seq<nat>): nat {
    if picks == [] then 0 else Laps(n, picks[..|picks| - 1]) + (if picks[|picks| - 1] + 1 == n then 1 else 0)
  }

  /** The cursor after the picks. */
  function CursorAfter(n: nat, picks: seq<nat>, first: nat): nat
    requires n > 0
  {
    if picks == [] then first else (picks[|picks| - 1] + 1) % n
  }

  lemma {:induction false} LapAccounts(n: nat, picks: seq<nat>, j: nat, first: nat)
    requires n > 0 && Rotating(n, picks) && j < n && first < n && (picks != [] ==> picks[0] == first)
    ensures CursorAfter(n, picks, first) < n
    ensures |picks| + first == Laps(n, picks) * n + CursorAfter(n, picks, first)
    ensures Uses(picks, j) + (if j < first then 1 else 0)
         == Laps(n, picks) + (if j < CursorAfter(n, picks, first) then 1 else 0)
  {
    if picks != [] {
      var before := picks[..|picks| - 1];
      LapAccounts(n, before, j, first);
      WrapOnce(n, picks[|picks| - 1] + 1);
      if before != [] {
        assert CursorAfter(n, before, first) == picks[|picks| - 1];
      }
      NextMultiple(Laps(n, before), n);
    }
  }

  /** A window's share of an index and the laps in it differ by at most one. */
  lemma ShareBounds(n: nat, m: nat, j: nat, first: nat, cursor: nat, laps: nat, uses: nat)
    requires j < n && first < n && cursor < n && m + first == laps * n + cursor
    requires uses + (if j < first then 1 else 0) == laps + (if j < cursor then 1 else 0)
    ensures uses * n <= m + n - 1 && m <= uses * n + n - 1
  {
    NextMultiple(laps, n);
    NextMultiple(laps - 1, n);
  }

  /** Of any m consecutive picks of a rotation, each index gets m/n rounded down or up. */
  lemma RotationIsFair(n: nat, picks: seq<nat>, j: nat)
    requires n > 0 && Rotating(n, picks) && j < n
    ensures |picks| / n <= Uses(picks, j) <= (|picks| + n - 1) / n
  {
    var first := if picks == [] then 0 else picks[0];
    LapAccounts(n, picks, j, first);
    ShareBounds(n, |picks|, j, first, CursorAfter(n, picks, first), Laps(n, picks), Uses(picks, j));
    DivisionBounds(n, |picks|, Uses(picks, j));
  }

  /** A stretch of a rotation is one. */
  lemma RotatingWindow(n: nat, picks: seq<nat>, from: nat, to: nat)
    requires n > 0 && Rotating(n, picks) && from <= to <= |picks|
    ensures Rotating(n, picks[from..to])
  {
    var window := picks[from..to];
    forall i | 0 < i < |window| ensures window[i] == (window[i - 1] + 1) % n {
      assert picks[from + i] == (picks[from + i - 1] + 1) % n;
    }
  }

  /** Once no cooldown is left and as long as endpoints are healthy, whatever failed before and
      concurrent requests included, the picks rotate: each index gets its exact share of every
      window of consecutive picks. */
  lemma HealthyRotationIsFair(
    p: Pool, states: seq<State>, actions: seq<Action>, w: nat, k: nat, from: nat, to: nat, j: nat)
    requires p.Valid() && IsRun(p, states, actions) && w <= k <= |actions|
    requires Recovered(states[w]) && HealthyFrom(actions, w)
    requires |states[w].log| <= |states[k].log|
    requires from <= to <= |PicksSince(states[k].log, |states[w].log|)| && j < |p.endpoints|
    ensures
      var n := |p.endpoints|;
      var window := PicksSince(states[k].log, |states[w].log|)[from..to];
      (to - from) / n <= Uses(window, j) <= (to - from + n - 1) / n
  {
    HealthyRun(p, states, actions, w, k);
    var picks := PicksSince(states[k].log, |states[w].log|);
    RotatingWindow(|p.endpoints|, picks, from, to);
    RotationIsFair(|p.endpoints|, picks[from..to], j);
  }
}
