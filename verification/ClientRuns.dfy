/** What holds over whole runs of one client (client_sdk/client.go): the breaker's bound on
    requests, degradation, and the typed view. */
module ClientRuns {
  import opened ConfigTypes
  import opened Arithmetic
  import opened ConfigClient

  function After(settings: Settings, parse: Parse, s: ClientState, ios: seq<RefreshIO>): ClientState {
    if ios == [] then s
    else AfterRefresh(settings, parse, After(settings, parse, s, ios[..|ios| - 1]), ios[|ios| - 1])
  }

  /** The outcome of the k-th refresh of a run. */
  function OutcomeAt(settings: Settings, parse: Parse, s: ClientState, ios: seq<RefreshIO>, k: nat): Outcome
    requires k < |ios|
  {
    OutcomeOf(settings, After(settings, parse, s, ios[..k]), ios[k])
  }

  predicate ReachesStore(outcome: Outcome) {
    outcome.Failed? || outcome.Unchanged? || outcome.Reloaded?
  }

  predicate Succeeds(outcome: Outcome) {
    outcome.Unchanged? || outcome.Reloaded?
  }

  ghost predicate NoneSucceeds(settings: Settings, parse: Parse, s: ClientState, ios: seq<RefreshIO>) {
    forall k :: 0 <= k < |ios| ==> !Succeeds(OutcomeAt(settings, parse, s, ios, k))
  }

  /** The clock the client reads never goes back. */
  ghost predicate Ordered(ios: seq<RefreshIO>) {
    && (forall k :: 0 <= k < |ios| ==> ios[k].now <= ios[k].versionAt <= ios[k].snapshotAt)
    && (forall k :: 0 < k < |ios| ==> ios[k - 1].snapshotAt <= ios[k].now)
  }

  lemma PrefixFacts(settings: Settings, parse: Parse, s: ClientState, ios: seq<RefreshIO>)
    requires ios != [] && NoneSucceeds(settings, parse, s, ios)
    ensures NoneSucceeds(settings, parse, s, ios[..|ios| - 1])
    ensures OutcomeAt(settings, parse, s, ios, |ios| - 1)
         == OutcomeOf(settings, After(settings, parse, s, ios[..|ios| - 1]), ios[|ios| - 1])
  {
    var before := ios[..|ios| - 1];
    forall k | 0 <= k < |before| ensures !Succeeds(OutcomeAt(settings, parse, s, before, k)) {
      assert before[..k] == ios[..k];
      assert OutcomeAt(settings, parse, s, before, k) == OutcomeAt(settings, parse, s, ios, k);
    }
  }

  // ----- the circuit breaker -----

  /** The breaker has an opening time exactly when the failures have reached the threshold. */
  predicate CircuitOk(settings: Settings, circuit: Circuit) {
    circuit.openUntil.Some? <==> circuit.failures >= settings.threshold
  }

  lemma RefreshKeepsCircuitOk(settings: Settings, parse: Parse, s: ClientState, io: RefreshIO)
    requires settings.Valid() && CircuitOk(settings, s.circuit)
    ensures CircuitOk(settings, AfterRefresh(settings, parse, s, io).circuit)
  {
    match OutcomeOf(settings, s, io)
    case Failed(at) => assert CircuitOk(settings, AfterFailure(settings, s, at).circuit);
    case Reloaded => assert AfterApply(parse, s, io.snapshot.value, io.snapshotAt).circuit == s.circuit;
    case _ =>
  }

  /** Every refresh keeps that, so an opening time always means enough failures. */
  lemma {:induction false} OpeningNeedsFailures(settings: Settings, parse: Parse, s: ClientState, ios: seq<RefreshIO>)
    requires settings.Valid() && CircuitOk(settings, s.circuit)
    ensures CircuitOk(settings, After(settings, parse, s, ios).circuit)
  {
    if ios != [] {
      var before, last := ios[..|ios| - 1], ios[|ios| - 1];
      OpeningNeedsFailures(settings, parse, s, before);
      RefreshKeepsCircuitOk(settings, parse, After(settings, parse, s, before), last);
    }
  }

  function Requests(settings: Settings, parse: Parse, s: ClientState, ios: seq<RefreshIO>): nat {
    if ios == [] then 0
    else
      var before := ios[..|ios| - 1];
      Requests(settings, parse, s, before)
      + (if ReachesStore(OutcomeOf(settings, After(settings, parse, s, before), ios[|ios| - 1])) then 1 else 0)
  }

  /** Requests the breaker lets through before it has to wait. */
  function Free(settings: Settings, circuit: Circuit): nat {
    if circuit.failures >= settings.threshold then 1 else settings.threshold - circuit.failures
  }

  /** After n failed requests: all counted, and each beyond the free ones has pushed the
      opening time on by one duration. */
  predicate Spaced(settings: Settings, first: Circuit, circuit: Circuit, n: nat, since: Time) {
    && circuit.failures == first.failures + n
    && CircuitOk(settings, circuit)
    && (n == 0 ==> circuit == first)
    && (n >= Free(settings, first) ==>
         circuit.openUntil.Some?
         && circuit.openUntil.value >= since + (n - Free(settings, first) + 1) * settings.openDuration)
  }

  lemma NextRequestIsSpaced(settings: Settings, first: Circuit, s: ClientState, n: nat, since: Time, now: Time, at: Time)
    requires settings.Valid() && settings.serverMode && CircuitOk(settings, first)
    requires Spaced(settings, first, s.circuit, n, since)
    requires !CircuitOpen(settings, s.circuit, now) && since <= now <= at
    ensures Spaced(settings, first, AfterFailure(settings, s, at).circuit, n + 1, since)
    ensures n + 1 > Free(settings, first) ==> (n + 1 - Free(settings, first)) * settings.openDuration <= now - since
  {
    var k := n - Free(settings, first);
    NextMultiple(k + 1, settings.openDuration);
  }

  lemma NextRefreshIsSpaced(
    settings: Settings, parse: Parse, first: Circuit, s: ClientState, n: nat, since: Time, io: RefreshIO)
    requires settings.Valid() && settings.serverMode && CircuitOk(settings, first)
    requires Spaced(settings, first, s.circuit, n, since)
    requires since <= io.now <= io.versionAt <= io.snapshotAt && !Succeeds(OutcomeOf(settings, s, io))
    ensures
      var next := AfterRefresh(settings, parse, s, io);
      if ReachesStore(OutcomeOf(settings, s, io)) then
        && Spaced(settings, first, next.circuit, n + 1, since)
        && (n + 1 > Free(settings, first) ==> (n + 1 - Free(settings, first)) * settings.openDuration <= io.now - since)
      else Spaced(settings, first, next.circuit, n, since)
  {
    var outcome := OutcomeOf(settings, s, io);
    if outcome.Failed? {
      NextRequestIsSpaced(settings, first, s, n, since, io.now, outcome.at);
    }
  }

  /** While nothing succeeds, each request beyond the free ones has waited for one opening. */
  lemma {:induction false} BreakerSpacing(settings: Settings, parse: Parse, s: ClientState, ios: seq<RefreshIO>)
    requires settings.Valid() && settings.serverMode && CircuitOk(settings, s.circuit)
    requires ios != [] && Ordered(ios) && NoneSucceeds(settings, parse, s, ios)
    ensures Spaced(settings, s.circuit, After(settings, parse, s, ios).circuit, Requests(settings, parse, s, ios), ios[0].now)
    ensures Requests(settings, parse, s, ios) > Free(settings, s.circuit) ==>
      (Requests(settings, parse, s, ios) - Free(settings, s.circuit)) * settings.openDuration
      <= ios[|ios| - 1].now - ios[0].now
  {
    var before := ios[..|ios| - 1];
    var last := ios[|ios| - 1];
    PrefixFacts(settings, parse, s, ios);
    FirstIsEarliest(ios);
    if before != [] {
      BreakerSpacing(settings, parse, s, before);
    }
    NextRefreshIsSpaced(
      settings, parse, s.circuit, After(settings, parse, s, before), Requests(settings, parse, s, before), ios[0].now, last);
  }

  lemma {:induction false} FirstIsEarliest(ios: seq<RefreshIO>)
    requires ios != [] && Ordered(ios)
    ensures ios[0].now <= ios[|ios| - 1].now
    ensures |ios| > 1 ==> Ordered(ios[..|ios| - 1]) && ios[|ios| - 2].now <= ios[|ios| - 1].now
  {
    if |ios| > 1 {
      FirstIsEarliest(ios[..|ios| - 1]);
    }
  }

  /** The part of it that counts. */
  predicate WithinSpacing(settings: Settings, first: Circuit, n: nat, elapsed: Time) {
    n > Free(settings, first) ==> (n - Free(settings, first)) * settings.openDuration <= elapsed
  }

  lemma RequestsWithinSpacing(settings: Settings, parse: Parse, s: ClientState, ios: seq<RefreshIO>)
    requires settings.Valid() && settings.serverMode && CircuitOk(settings, s.circuit)
    requires ios != [] && Ordered(ios) && NoneSucceeds(settings, parse, s, ios)
    ensures WithinSpacing(settings, s.circuit, Requests(settings, parse, s, ios), ios[|ios| - 1].now - ios[0].now)
  {
    BreakerSpacing(settings, parse, s, ios);
  }

  lemma SpacingBound(settings: Settings, first: Circuit, n: nat, elapsed: nat)
    requires settings.Valid() && WithinSpacing(settings, first, n, elapsed)
    ensures WithinBound(settings, n, elapsed)
  {
    var free := Free(settings, first);
    FitsInDivision(if n > free then n - free else 0, elapsed, settings.openDuration);
  }

  predicate WithinBound(settings: Settings, n: nat, elapsed: Time)
    requires settings.Valid()
  {
    n <= settings.threshold + elapsed / settings.openDuration
  }

  /** In any stretch of failing refreshes in server mode, at most threshold + T / openDuration
      of them reach the store, T being the time between the first and the last: the failure
      count outlives each opening, so every late probe that fails opens the breaker again. */
  lemma BreakerBoundsRequests(settings: Settings, parse: Parse, s: ClientState, ios: seq<RefreshIO>)
    requires settings.Valid() && settings.serverMode && CircuitOk(settings, s.circuit)
    requires ios != [] && Ordered(ios) && NoneSucceeds(settings, parse, s, ios)
    ensures WithinBound(settings, Requests(settings, parse, s, ios), ios[|ios| - 1].now - ios[0].now)
  {
    RequestsWithinSpacing(settings, parse, s, ios);
    FirstIsEarliest(ios);
    SpacingBound(settings, s.circuit, Requests(settings, parse, s, ios), ios[|ios| - 1].now - ios[0].now);
  }

  /** From a closed breaker, a stretch of failures opens it with exactly the threshold-th
      request that reaches the store. */
  lemma BreakerOpensAtThreshold(settings: Settings, parse: Parse, s: ClientState, ios: seq<RefreshIO>)
    requires settings.Valid() && settings.serverMode && s.circuit == CLOSED
    requires ios != [] && Ordered(ios) && NoneSucceeds(settings, parse, s, ios)
    ensures After(settings, parse, s, ios).circuit.openUntil.Some? <==> Requests(settings, parse, s, ios) >= settings.threshold
  {
    BreakerSpacing(settings, parse, s, ios);
  }

  // ----- how long the breaker stays open -----

  /** The store answers all that this refresh asks. */
  predicate Answers(s: ClientState, io: RefreshIO) {
    io.version.Some? && (io.version.value == s.repoVersion || io.snapshot.Some?)
  }

  /** The time the client reads right after the answer that fails. */
  function FailedAt(io: RefreshIO): Time {
    if io.version.None? then io.versionAt else io.snapshotAt
  }

  /** After the k-th refresh none reached the store. */
  ghost predicate QuietSince(settings: Settings, parse: Parse, s: ClientState, ios: seq<RefreshIO>, k: nat) {
    forall m :: k < m < |ios| ==> !ReachesStore(OutcomeAt(settings, parse, s, ios, m))
  }

  /** Everything a failing refresh changes: the error on record, and in server mode the count
      and, from the threshold on, the opening time. */
  lemma FailureExactly(settings: Settings, parse: Parse, s: ClientState, io: RefreshIO)
    requires OutcomeOf(settings, s, io).Failed?
    ensures
      var s' := AfterRefresh(settings, parse, s, io);
      var failures := s.circuit.failures + 1;
      var until := FailedAt(io) + settings.openDuration;
      s' == if !settings.serverMode then s.(lastRefreshErr := Some(StoreError))
            else if failures < settings.threshold then
              s.(lastRefreshErr := Some(StoreError), circuit := Circuit(failures, s.circuit.openUntil))
            else s.(lastRefreshErr := Some(TrippedError(failures, until)), circuit := Circuit(failures, Some(until)))
  {
  }

  /** What such refreshes leave as it was. */
  lemma {:induction false} QuietKeepsCircuit(
    settings: Settings, parse: Parse, s: ClientState, ios: seq<RefreshIO>, k: nat, n: nat)
    requires k < n <= |ios| && QuietSince(settings, parse, s, ios, k)
    ensures
      var tripped, later := After(settings, parse, s, ios[..k + 1]), After(settings, parse, s, ios[..n]);
      later == tripped.(lastRefreshErr := later.lastRefreshErr)
  {
    if n > k + 1 {
      QuietKeepsCircuit(settings, parse, s, ios, k, n - 1);
      assert ios[..n][..n - 1] == ios[..n - 1] && ios[..n][n - 1] == ios[n - 1];
      assert !ReachesStore(OutcomeAt(settings, parse, s, ios, n - 1));
    }
  }

  /** One failure that reaches the threshold: its circuit. */
  lemma FailureOpensUntil(settings: Settings, parse: Parse, s: ClientState, io: RefreshIO)
    requires settings.Valid() && settings.serverMode && OutcomeOf(settings, s, io).Failed?
    requires AfterRefresh(settings, parse, s, io).circuit.failures >= settings.threshold
    ensures AfterRefresh(settings, parse, s, io).circuit.openUntil == Some(FailedAt(io) + settings.openDuration)
    ensures !Answers(s, io)
  {
  }

  /** What an opening time means for a due refresh. */
  ghost predicate OpenUntilExactly(settings: Settings, parse: Parse, state: ClientState, until: Time, io: RefreshIO) {
    var outcome := OutcomeOf(settings, state, io);
    var next := AfterRefresh(settings, parse, state, io);
    && (outcome.BreakerOpen? <==> io.now < until)
    && (io.now < until ==> next == state.(lastRefreshErr := Some(BreakerOpenError(until))))
    && (io.now >= until ==>
          if Answers(state, io) then Succeeds(outcome) && next.circuit == CLOSED && next.lastRefreshErr == None
          else outcome == Failed(FailedAt(io)) && next.circuit.openUntil == Some(FailedAt(io) + settings.openDuration))
  }

  lemma OpenUntilDecides(settings: Settings, parse: Parse, state: ClientState, until: Time, io: RefreshIO)
    requires settings.Valid() && settings.serverMode && io.now - state.lastVersionCheck >= state.maxCacheTtl
    requires state.circuit.openUntil == Some(until) && state.circuit.failures >= settings.threshold
    ensures OpenUntilExactly(settings, parse, state, until, io)
  {
  }

  lemma StaysOpenUntil(settings: Settings, parse: Parse, s: ClientState, ios: seq<RefreshIO>, k: nat)
    requires settings.Valid() && settings.serverMode && k < |ios|
    requires OutcomeAt(settings, parse, s, ios, k).Failed? && QuietSince(settings, parse, s, ios, k)
    requires After(settings, parse, s, ios[..k + 1]).circuit.failures >= settings.threshold
    ensures After(settings, parse, s, ios).circuit.openUntil == Some(FailedAt(ios[k]) + settings.openDuration)
    ensures After(settings, parse, s, ios).circuit.failures >= settings.threshold
  {
    assert ios[..k + 1][..k] == ios[..k] && ios[..k + 1][k] == ios[k];
    FailureOpensUntil(settings, parse, After(settings, parse, s, ios[..k]), ios[k]);
    QuietKeepsCircuit(settings, parse, s, ios, k, |ios|);
    assert ios[..|ios|] == ios;
  }

  /** A failure that reaches the threshold keeps due refreshes from the store for exactly one
      opening duration, counted from the time read after the failing answer. From then on a due
      refresh reaches the store again; if the store answers, the client is current and the
      breaker closed, and if not the refresh has failed once more. */
  lemma BreakerOpenExactlyForDuration(
    settings: Settings, parse: Parse, s: ClientState, ios: seq<RefreshIO>, k: nat, io: RefreshIO)
    requires settings.Valid() && settings.serverMode && k < |ios|
    requires OutcomeAt(settings, parse, s, ios, k).Failed? && QuietSince(settings, parse, s, ios, k)
    requires After(settings, parse, s, ios[..k + 1]).circuit.failures >= settings.threshold
    requires io.now - After(settings, parse, s, ios).lastVersionCheck >= After(settings, parse, s, ios).maxCacheTtl
    ensures OpenUntilExactly(
      settings, parse, After(settings, parse, s, ios), FailedAt(ios[k]) + settings.openDuration, io)
  {
    StaysOpenUntil(settings, parse, s, ios, k);
    OpenUntilDecides(settings, parse, After(settings, parse, s, ios), FailedAt(ios[k]) + settings.openDuration, io);
  }

  /** A success at t clears the error and the breaker and leaves the view and the label of the
      answers, and no refresh before t + ttl does anything. */
  lemma SuccessIsCurrentForTtl(settings: Settings, parse: Parse, s: ClientState, io: RefreshIO, next: RefreshIO)
    requires Succeeds(OutcomeOf(settings, s, io))
    requires settings.serverMode || s.circuit == CLOSED
    ensures
      var s' := AfterRefresh(settings, parse, s, io);
      var reloaded := io.version.value != s.repoVersion;
      var at := if reloaded then io.snapshotAt else io.versionAt;
      && !Degraded(s') && s'.circuit == CLOSED
      && s'.repoVersion == (if reloaded then io.snapshot.value.repoVersion else io.version.value)
      && ClientView(s'.cache) == (if reloaded then ClientView(io.snapshot.value.items) else ClientView(s.cache))
      && (OutcomeOf(settings, s', next).WithinTtl? <==> next.now < at + s.maxCacheTtl)
      && (next.now < at + s.maxCacheTtl ==> AfterRefresh(settings, parse, s', next) == s')
  {
    if OutcomeOf(settings, s, io).Reloaded? {
      var items := io.snapshot.value.items;
      assert ClientView(Stamped(items, io.snapshotAt)) == ClientView(items);
    }
  }

  // ----- degradation -----

  /** Whether the last refresh that got past the TTL gate failed or found the breaker open. */
  function LastDueFailed(settings: Settings, parse: Parse, s: ClientState, ios: seq<RefreshIO>): bool {
    if ios == [] then false
    else
      var before := ios[..|ios| - 1];
      match OutcomeOf(settings, After(settings, parse, s, before), ios[|ios| - 1])
      case WithinTtl => LastDueFailed(settings, parse, s, before)
      case BreakerOpen => true
      case Failed(_) => true
      case _ => false
  }

  /** What one refresh does to the error on record. */
  lemma RefreshRecordsError(settings: Settings, parse: Parse, s: ClientState, io: RefreshIO)
    ensures
      var s' := AfterRefresh(settings, parse, s, io);
      && s'.initialized == s.initialized
      && match OutcomeOf(settings, s, io)
         case WithinTtl => s'.lastRefreshErr == s.lastRefreshErr
         case BreakerOpen => s'.lastRefreshErr.Some?
         case Failed(_) => s'.lastRefreshErr.Some?
         case _ => s'.lastRefreshErr.None?
  {
  }

  /** From any state without an error, whatever happens later, being degraded is exactly that,
      of an initialized client; one that was never initialized is not degraded. */
  lemma {:induction false} DegradedMeansLastDueFailed(settings: Settings, parse: Parse, s: ClientState, ios: seq<RefreshIO>)
    requires s.lastRefreshErr == None
    ensures After(settings, parse, s, ios).initialized == s.initialized
    ensures Degraded(After(settings, parse, s, ios)) <==> s.initialized && LastDueFailed(settings, parse, s, ios)
    ensures After(settings, parse, s, ios).lastRefreshErr.Some? <==> LastDueFailed(settings, parse, s, ios)
  {
    if ios != [] {
      var before, last := ios[..|ios| - 1], ios[|ios| - 1];
      DegradedMeansLastDueFailed(settings, parse, s, before);
      RefreshRecordsError(settings, parse, After(settings, parse, s, before), last);
    }
  }

  /** The first Init leaves no error; a second one does not clear the error of an earlier
      refresh, so a freshly reloaded client still counts as degraded. */
  lemma InitKeepsOldError(parse: Parse, s: ClientState, meta: Option<MetaConfig>, snapshot: Snapshot, at: Time)
    ensures
      var s' := AfterInit(parse, s, meta, Some(snapshot), at);
      && s'.cache == Stamped(snapshot.items, at) && s'.repoVersion == snapshot.repoVersion
      && (Degraded(s') <==> s.lastRefreshErr.Some?)
  {
  }

  /** The typed entry of an identity, as its registered type decodes the snapshot's live
      non-empty text. */
  function DecodedEntry(parse: Parse, regs: map<ConfigIdentity, TypeTag>, view: View, identity: ConfigIdentity): Option<TypedObject> {
    if identity in regs && LiveText(view, identity).Some? then parse(regs[identity], LiveText(view, identity).value) else None
  }

  /** Init with a snapshot leaves its view, its label, and for every identity the typed entry
      that belongs to it; settings of the service that are positive replace the client's, each
      its own; and no refresh is due before the TTL has passed. A failed Init changes nothing
      but those settings. */
  lemma InitExactly(
    settings: Settings, parse: Parse, s: ClientState, meta: Option<MetaConfig>, snapshot: Option<Snapshot>, at: Time,
    io: RefreshIO)
    ensures
      var s' := AfterInit(parse, s, meta, snapshot, at);
      var interval := if meta.Some? && meta.value.refreshInterval > 0 then meta.value.refreshInterval else s.refreshInterval;
      var ttl := if meta.Some? && meta.value.maxCacheTtl > 0 then meta.value.maxCacheTtl else s.maxCacheTtl;
      && s'.refreshInterval == interval && s'.maxCacheTtl == ttl
      && (snapshot.None? ==> s' == s.(refreshInterval := interval, maxCacheTtl := ttl))
      && (snapshot.Some? ==>
            && s'.initialized && s'.repoVersion == snapshot.value.repoVersion
            && ClientView(s'.cache) == ClientView(snapshot.value.items)
            && (forall identity :: identity in s'.cache ==> s'.cache[identity].loadedAt == at)
            && s'.typedRegs == s.typedRegs && s'.circuit == s.circuit && s'.lastRefreshErr == s.lastRefreshErr
            && (OutcomeOf(settings, s', io).WithinTtl? <==> io.now < at + ttl))
  {
    if snapshot.Some? {
      assert ClientView(Stamped(snapshot.value.items, at)) == ClientView(snapshot.value.items);
    }
  }

  lemma InitDecodesExactly(
    parse: Parse, s: ClientState, meta: Option<MetaConfig>, snapshot: Snapshot, at: Time, identity: ConfigIdentity)
    ensures
      var s' := AfterInit(parse, s, meta, Some(snapshot), at);
      (if identity in s'.typedCache then Some(s'.typedCache[identity]) else None)
      == DecodedEntry(parse, s.typedRegs, ClientView(snapshot.items), identity)
  {
  }

  /** However long no refresh succeeds, the client keeps serving what it had: both caches, the
      version and the time of the last check stay. Once a refresh was due it stays due, and
      once there is an error there stays one. */
  lemma {:induction false} OutageFreezesClient(settings: Settings, parse: Parse, s: ClientState, ios: seq<RefreshIO>)
    requires NoneSucceeds(settings, parse, s, ios)
    ensures
      var s' := After(settings, parse, s, ios);
      && s'.cache == s.cache && s'.typedCache == s.typedCache && s'.repoVersion == s.repoVersion
      && s'.lastVersionCheck == s.lastVersionCheck && s'.maxCacheTtl == s.maxCacheTtl
      && (s.lastRefreshErr.Some? ==> s'.lastRefreshErr.Some?)
  {
    if ios != [] {
      PrefixFacts(settings, parse, s, ios);
      OutageFreezesClient(settings, parse, s, ios[..|ios| - 1]);
    }
  }

  lemma OnceDueStaysDue(settings: Settings, parse: Parse, s: ClientState, ios: seq<RefreshIO>, k: nat, m: nat)
    requires Ordered(ios) && NoneSucceeds(settings, parse, s, ios) && k <= m < |ios|
    requires !OutcomeAt(settings, parse, s, ios, k).WithinTtl?
    ensures !OutcomeAt(settings, parse, s, ios, m).WithinTtl?
  {
    PrefixSucceedsNone(settings, parse, s, ios, k);
    PrefixSucceedsNone(settings, parse, s, ios, m);
    OutageFreezesClient(settings, parse, s, ios[..k]);
    OutageFreezesClient(settings, parse, s, ios[..m]);
    LaterIsLater(ios, k, m);
  }

  lemma {:induction false} PrefixSucceedsNone(settings: Settings, parse: Parse, s: ClientState, ios: seq<RefreshIO>, k: nat)
    requires NoneSucceeds(settings, parse, s, ios) && k <= |ios|
    ensures NoneSucceeds(settings, parse, s, ios[..k])
  {
    forall i | 0 <= i < k ensures !Succeeds(OutcomeAt(settings, parse, s, ios[..k], i)) {
      assert ios[..k][..i] == ios[..i];
      assert OutcomeAt(settings, parse, s, ios[..k], i) == OutcomeAt(settings, parse, s, ios, i);
    }
  }

  lemma {:induction false} LaterIsLater(ios: seq<RefreshIO>, k: nat, m: nat)
    requires Ordered(ios) && k <= m < |ios|
    ensures ios[k].now <= ios[m].now
  {
    if k < m {
      LaterIsLater(ios, k, m - 1);
    }
  }

  // ----- the typed view -----

  /** The operations that touch the caches, in any interleaving. */
  datatype CacheOp =
    | RegisterOp(identity: ConfigIdentity, tag: TypeTag)
    | ApplyOp(snapshot: Snapshot, at: Time)
    | InitOp(meta: Option<MetaConfig>, loaded: Option<Snapshot>, initAt: Time)
    | RefreshOp(settings: Settings, io: RefreshIO)

  function AfterOps(parse: Parse, s: ClientState, ops: seq<CacheOp>): ClientState {
    if ops == [] then s
    else AfterOp(parse, AfterOps(parse, s, ops[..|ops| - 1]), ops[|ops| - 1])
  }

  function AfterOp(parse: Parse, s: ClientState, op: CacheOp): ClientState {
    match op
    case RegisterOp(identity, tag) => AfterRegister(parse, s, identity, tag)
    case ApplyOp(snapshot, at) => AfterApply(parse, s, snapshot, at)
    case InitOp(meta, loaded, initAt) => AfterInit(parse, s, meta, loaded, initAt)
    case RefreshOp(settings, io) => AfterRefresh(settings, parse, s, io)
  }

  /** Only a registration changes the registered types; and any other operation leaves both
      caches alone or rebuilds them together. */
  lemma OtherOpsRebuild(parse: Parse, s: ClientState, op: CacheOp)
    requires !op.RegisterOp?
    ensures
      var s' := AfterOp(parse, s, op);
      && s'.typedRegs == s.typedRegs
      && ((s'.cache == s.cache && s'.typedCache == s.typedCache) || s'.typedCache == TypedFrom(parse, s.typedRegs, s'.cache))
  {
    match op
    case RefreshOp(settings, io) =>
      match OutcomeOf(settings, s, io) {
        case Failed(at) =>
        case Reloaded => assert s.typedRegs == AfterApply(parse, s, io.snapshot.value, io.snapshotAt).typedRegs;
        case _ =>
      }
    case _ =>
  }

  /** Every typed entry was decoded from the live text, as some type registered for it. */
  ghost predicate TypedSound(parse: Parse, s: ClientState, ops: seq<CacheOp>) {
    && (forall identity :: identity in s.typedCache ==> DecodedAsRegistered(parse, s, ops, identity))
    && (forall identity :: identity in s.typedRegs ==> RegisterOp(identity, s.typedRegs[identity]) in ops)
  }

  ghost predicate DecodedAsRegistered(parse: Parse, s: ClientState, ops: seq<CacheOp>, identity: ConfigIdentity)
    requires identity in s.typedCache
  {
    exists tag :: RegisterOp(identity, tag) in ops
               && ParseAs(parse, tag, ParsableText(s.cache, identity)) == Some(s.typedCache[identity])
  }

  lemma {:induction false} OpsTypedSound(parse: Parse, s: ClientState, ops: seq<CacheOp>)
    requires s.typedRegs == map[] && s.typedCache == map[]
    ensures TypedSound(parse, AfterOps(parse, s, ops), ops)
  {
    if ops != [] {
      var before := ops[..|ops| - 1];
      OpsTypedSound(parse, s, before);
      StepTypedSound(parse, AfterOps(parse, s, before), before, ops[|ops| - 1]);
      assert ops == before + [ops[|ops| - 1]];
    }
  }

  lemma StepTypedSound(parse: Parse, s: ClientState, before: seq<CacheOp>, op: CacheOp)
    requires TypedSound(parse, s, before)
    ensures TypedSound(parse, AfterOp(parse, s, op), before + [op])
  {
    var s' := AfterOp(parse, s, op);
    if !op.RegisterOp? {
      OtherOpsRebuild(parse, s, op);
    }
    forall identity | identity in s'.typedRegs ensures RegisterOp(identity, s'.typedRegs[identity]) in before + [op] {
      if op != RegisterOp(identity, s'.typedRegs[identity]) {
        assert RegisterOp(identity, s.typedRegs[identity]) in before;
      }
    }
    forall identity | identity in s'.typedCache ensures DecodedAsRegistered(parse, s', before + [op], identity) {
      StepDecoded(parse, s, s', before, op, identity);
    }
  }

  lemma StepDecoded(parse: Parse, s: ClientState, s': ClientState, before: seq<CacheOp>, op: CacheOp, identity: ConfigIdentity)
    requires TypedSound(parse, s, before) && s' == AfterOp(parse, s, op) && identity in s'.typedCache
    requires forall other :: other in s'.typedRegs ==> RegisterOp(other, s'.typedRegs[other]) in before + [op]
    requires !op.RegisterOp? ==>
      (s'.cache == s.cache && s'.typedCache == s.typedCache) || s'.typedCache == TypedFrom(parse, s'.typedRegs, s'.cache)
    ensures DecodedAsRegistered(parse, s', before + [op], identity)
  {
    if s'.cache == s.cache && identity in s.typedCache && s'.typedCache[identity] == s.typedCache[identity] {
      assert DecodedAsRegistered(parse, s, before, identity);
      var tag :| RegisterOp(identity, tag) in before
        && ParseAs(parse, tag, ParsableText(s.cache, identity)) == Some(s.typedCache[identity]);
      assert RegisterOp(identity, tag) in before + [op];
    } else {
      assert RegisterOp(identity, s'.typedRegs[identity]) in before + [op];
    }
  }

  /** A registration concerns its own identity only, and one whose text does not decode keeps
      the entry there was. */
  lemma RegisterExactly(parse: Parse, s: ClientState, identity: ConfigIdentity, tag: TypeTag, other: ConfigIdentity)
    ensures
      var s' := AfterRegister(parse, s, identity, tag);
      var decoded := DecodedEntry(parse, map[identity := tag], ClientView(s.cache), other);
      && s' == s.(typedRegs := s.typedRegs[identity := tag], typedCache := s'.typedCache)
      && (if decoded.Some? then other in s'.typedCache && s'.typedCache[other] == decoded.value
          else (other in s'.typedCache <==> other in s.typedCache)
               && (other in s.typedCache ==> s'.typedCache[other] == s.typedCache[other]))
  {
  }

  /** Decoding as this type gives objects of it, and an assertion to it needs one: Go's types
      other than interfaces. */
  ghost predicate Concrete(parse: Parse, asserts: Asserts, tag: TypeTag) {
    && (forall text :: parse(tag, text).Some? ==> parse(tag, text).value.tag == tag)
    && (forall dynamic :: asserts(tag, dynamic) <==> dynamic == tag)
  }

  ghost predicate RegisteredConcretely(parse: Parse, asserts: Asserts, ops: seq<CacheOp>, identity: ConfigIdentity) {
    forall tag :: RegisterOp(identity, tag) in ops ==> Concrete(parse, asserts, tag)
  }

  /** A typed hit is always the decoding, as a type registered for the identity, of the live
      non-empty text that the string view has at that moment; with concrete types, as the
      handle's own type. */
  lemma TypedHitIsParse(
    parse: Parse, asserts: Asserts, s: ClientState, ops: seq<CacheOp>, identity: ConfigIdentity, tag: TypeTag)
    requires s.typedRegs == map[] && s.typedCache == map[]
    requires TypedGet(asserts, AfterOps(parse, s, ops), identity, tag).Some?
    ensures
      var s' := AfterOps(parse, s, ops);
      && identity in ClientView(s'.cache) && ClientView(s'.cache)[identity] != ""
      && (exists other :: RegisterOp(identity, other) in ops
            && parse(other, ClientView(s'.cache)[identity]) == TypedGet(asserts, s', identity, tag))
      && (RegisteredConcretely(parse, asserts, ops, identity) && Concrete(parse, asserts, tag) ==>
            parse(tag, ClientView(s'.cache)[identity]) == TypedGet(asserts, s', identity, tag))
  {
    OpsTypedSound(parse, s, ops);
    var s' := AfterOps(parse, s, ops);
    assert DecodedAsRegistered(parse, s', ops, identity);
    var other :| RegisterOp(identity, other) in ops
      && ParseAs(parse, other, ParsableText(s'.cache, identity)) == Some(s'.typedCache[identity]);
  }

  // ----- when every hit is the handle's own decoding -----

  ghost predicate OnlyRegisters(ops: seq<CacheOp>, identity: ConfigIdentity, tags: set<TypeTag>) {
    forall tag :: RegisterOp(identity, tag) in ops ==> tag in tags
  }

  /** A non-empty text decodes as the other type to an object that the handle's type can be
      asserted of. */
  predicate Asserted(parse: Parse, asserts: Asserts, tag: TypeTag, other: TypeTag, text: string) {
    text != "" && parse(other, text).Some? && asserts(tag, parse(other, text).value.tag)
  }

  /** Where an object decoded as one of the types can be asserted to the handle's, the handle's
      own decoding of the text gives the same. */
  ghost predicate OwnDecoding(parse: Parse, asserts: Asserts, tag: TypeTag, tags: set<TypeTag>) {
    forall other, text :: other in tags && Asserted(parse, asserts, tag, other, text) ==>
      parse(tag, text) == parse(other, text)
  }

  ghost predicate HitIsOwn(parse: Parse, asserts: Asserts, s: ClientState, identity: ConfigIdentity, tag: TypeTag) {
    TypedGet(asserts, s, identity, tag).Some? ==>
      TypedGet(asserts, s, identity, tag) == ParseAs(parse, tag, LiveText(ClientView(s.cache), identity))
  }

  ghost predicate HitsAreOwn(
    parse: Parse, asserts: Asserts, s: ClientState, identity: ConfigIdentity, tag: TypeTag, tags: set<TypeTag>)
  {
    forall ops :: OnlyRegisters(ops, identity, tags) ==> HitIsOwn(parse, asserts, AfterOps(parse, s, ops), identity, tag)
  }

  /** For an identity registered with these types only, after every sequence of operations
      every hit of the handle is its own decoding of the present text if and only if that
      condition on the types holds. */
  lemma HitsAreOwnExactly(
    parse: Parse, asserts: Asserts, s: ClientState, identity: ConfigIdentity, tag: TypeTag, tags: set<TypeTag>)
    requires s.typedRegs == map[] && s.typedCache == map[]
    ensures HitsAreOwn(parse, asserts, s, identity, tag, tags) <==> OwnDecoding(parse, asserts, tag, tags)
  {
    if OwnDecoding(parse, asserts, tag, tags) {
      forall ops | OnlyRegisters(ops, identity, tags)
        ensures HitIsOwn(parse, asserts, AfterOps(parse, s, ops), identity, tag)
      {
        if TypedGet(asserts, AfterOps(parse, s, ops), identity, tag).Some? {
          TypedHitIsParse(parse, asserts, s, ops, identity, tag);
        }
      }
    }
    if HitsAreOwn(parse, asserts, s, identity, tag, tags) {
      forall other, text | other in tags && Asserted(parse, asserts, tag, other, text)
        ensures parse(tag, text) == parse(other, text)
      {
        var ops := [LoadOne(identity, text)] + [RegisterOp(identity, other)];
        LoadThenRegister(parse, s, identity, text, other);
        assert HitIsOwn(parse, asserts, AfterOps(parse, s, ops), identity, tag);
      }
    }
  }

  /** A snapshot with one text. */
  function LoadOne(identity: ConfigIdentity, text: string): CacheOp {
    ApplyOp(Snapshot("v", map[identity := ConfigItem(text, false, 0)]), 0)
  }

  lemma LoadThenRegister(parse: Parse, s: ClientState, identity: ConfigIdentity, text: string, tag: TypeTag)
    requires s.typedRegs == map[] && text != "" && parse(tag, text).Some?
    ensures
      var s' := AfterOps(parse, s, [LoadOne(identity, text)] + [RegisterOp(identity, tag)]);
      && LiveText(ClientView(s'.cache), identity) == Some(text)
      && identity in s'.typedCache && s'.typedCache[identity] == parse(tag, text).value
  {
    OneMoreOp(parse, s, [], LoadOne(identity, text));
    assert [] + [LoadOne(identity, text)] == [LoadOne(identity, text)];
    OneMoreOp(parse, s, [LoadOne(identity, text)], RegisterOp(identity, tag));
  }

  /** Every identity is registered with one type only. */
  ghost predicate OneTypeEach(ops: seq<CacheOp>, typeOf: ConfigIdentity -> TypeTag) {
    forall k :: 0 <= k < |ops| && ops[k].RegisterOp? ==> ops[k].tag == typeOf(ops[k].identity)
  }

  ghost predicate TypedComplete(parse: Parse, s: ClientState, typeOf: ConfigIdentity -> TypeTag) {
    forall identity :: identity in s.typedRegs ==>
      && s.typedRegs[identity] == typeOf(identity)
      && (if identity in s.typedCache then Some(s.typedCache[identity]) else None)
         == ParseAs(parse, typeOf(identity), ParsableText(s.cache, identity))
  }

  lemma {:induction false} OpsTypedComplete(parse: Parse, s: ClientState, ops: seq<CacheOp>, typeOf: ConfigIdentity -> TypeTag)
    requires s.typedRegs == map[] && s.typedCache == map[] && OneTypeEach(ops, typeOf)
    ensures TypedComplete(parse, AfterOps(parse, s, ops), typeOf)
    ensures AfterOps(parse, s, ops).typedCache.Keys <= AfterOps(parse, s, ops).typedRegs.Keys
  {
    if ops != [] {
      var before, last := ops[..|ops| - 1], ops[|ops| - 1];
      OpsTypedComplete(parse, s, before, typeOf);
      if !last.RegisterOp? {
        OtherOpsRebuild(parse, AfterOps(parse, s, before), last);
      }
    }
  }

  /** Then a registered handle hits exactly when that decoding succeeds with an object the
      handle's type can be asserted of, which for a concrete type is whenever it succeeds. */
  lemma TypedHitExactly(
    parse: Parse, asserts: Asserts, s: ClientState, ops: seq<CacheOp>, typeOf: ConfigIdentity -> TypeTag,
    identity: ConfigIdentity)
    requires s.typedRegs == map[] && s.typedCache == map[] && OneTypeEach(ops, typeOf)
    requires identity in AfterOps(parse, s, ops).typedRegs
    ensures
      var s' := AfterOps(parse, s, ops);
      var decoded := ParseAs(parse, typeOf(identity), LiveText(ClientView(s'.cache), identity));
      var hit := TypedGet(asserts, s', identity, typeOf(identity));
      && hit == (if decoded.Some? && asserts(typeOf(identity), decoded.value.tag) then decoded else None)
      && (Concrete(parse, asserts, typeOf(identity)) ==> hit == decoded)
  {
    OpsTypedComplete(parse, s, ops, typeOf);
  }

  /** The non-empty text of a view. */
  function LiveText(view: View, identity: ConfigIdentity): Option<string> {
    if identity in view && view[identity] != "" then Some(view[identity]) else None
  }

  /** JSON null and numbers as the types any and int see them. */
  function ParseNumber(tag: TypeTag, text: string): Option<TypedObject> {
    if tag == "any" then Some(TypedObject(if text == "null" then "nil" else "float64", text))
    else Some(TypedObject(tag, if text == "null" then "0" else text))
  }

  predicate AssertsNumber(tag: TypeTag, dynamic: TypeTag) {
    if tag == "any" then dynamic != "nil" else dynamic == tag
  }

  const LIMIT := ConfigIdentity("n", "limit.json")

  lemma OneMoreOp(parse: Parse, s: ClientState, ops: seq<CacheOp>, op: CacheOp)
    ensures AfterOps(parse, s, ops + [op]) == AfterOp(parse, AfterOps(parse, s, ops), op)
  {
    assert (ops + [op])[..|ops|] == ops;
  }

  /** Counterexample for an interface type: the text null decodes as any, and yet the handle
      misses. */
  lemma InterfaceHandleMissesNull(s: ClientState)
    requires s.typedRegs == map[] && s.typedCache == map[]
    ensures ParseNumber("any", "null").Some?
    ensures
      var s' := AfterOps(ParseNumber, s, [RegisterOp(LIMIT, "any")] + [LoadOne(LIMIT, "null")]);
      LiveText(ClientView(s'.cache), LIMIT) == Some("null") && TypedGet(AssertsNumber, s', LIMIT, "any") == None
  {
    OneMoreOp(ParseNumber, s, [], RegisterOp(LIMIT, "any"));
    assert [] + [RegisterOp(LIMIT, "any")] == [RegisterOp(LIMIT, "any")];
    OneMoreOp(ParseNumber, s, [RegisterOp(LIMIT, "any")], LoadOne(LIMIT, "null"));
  }

  /** And after a second registration, as int, the handle of type any hits with the int object,
      which is not what decoding as its own type gives. */
  lemma InterfaceHandleReadsAnotherType(s: ClientState)
    requires s.typedRegs == map[] && s.typedCache == map[]
    ensures
      var s' := AfterOps(ParseNumber, s, [LoadOne(LIMIT, "5")] + [RegisterOp(LIMIT, "any")] + [RegisterOp(LIMIT, "int")]);
      && LiveText(ClientView(s'.cache), LIMIT) == Some("5")
      && TypedGet(AssertsNumber, s', LIMIT, "any") == Some(TypedObject("int", "5")) != ParseNumber("any", "5")
  {
    OneMoreOp(ParseNumber, s, [], LoadOne(LIMIT, "5"));
    assert [] + [LoadOne(LIMIT, "5")] == [LoadOne(LIMIT, "5")];
    OneMoreOp(ParseNumber, s, [LoadOne(LIMIT, "5")], RegisterOp(LIMIT, "any"));
    OneMoreOp(ParseNumber, s, [LoadOne(LIMIT, "5")] + [RegisterOp(LIMIT, "any")], RegisterOp(LIMIT, "int"));
  }
}
