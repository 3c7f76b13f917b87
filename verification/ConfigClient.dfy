/** The client (client_sdk/client.go): its string cache, the typed cache beside it, the
    version check and the circuit breaker. */
module ConfigClient {
  import opened ConfigTypes

  /** The name of a Go type. An object in the typed cache has a dynamic type; for a handle of
      an interface type that is not the handle's. */
  type TypeTag = string

  datatype TypedObject = TypedObject(tag: TypeTag, value: string)

  /** Decoding a text into a variable of a type, boxed; and whether a type assertion to the
      first type holds of an object whose dynamic type is the second. */
  type Parse = (TypeTag, string) -> Option<TypedObject>
  type Asserts = (TypeTag, TypeTag) -> bool

  datatype Circuit = Circuit(failures: nat, openUntil: Option<Time>)

  const CLOSED := Circuit(0, None)

  datatype RefreshError = BreakerOpenError(until: Time) | StoreError | TrippedError(failures: nat, until: Time)

  /** The settings of the breaker; it only acts in server mode. */
  datatype Settings = Settings(serverMode: bool, threshold: nat, openDuration: Time) {
    predicate Valid() {
      threshold > 0 && openDuration > 0
    }
  }

  datatype ClientState = ClientState(
    cache: ConfigItems, typedRegs: map<ConfigIdentity, TypeTag>, typedCache: map<ConfigIdentity, TypedObject>,
    repoVersion: string, initialized: bool, lastVersionCheck: Time, maxCacheTtl: Time, refreshInterval: Time,
    lastRefreshErr: Option<RefreshError>, circuit: Circuit)

  // ----- the specification of each critical section -----

  /** The text that may be parsed for an identity: live and not empty. */
  function ParsableText(cache: ConfigItems, identity: ConfigIdentity): Option<string> {
    if identity in cache && !cache[identity].deleted && cache[identity].value != "" then Some(cache[identity].value) else None
  }

  function ParseAs(parse: Parse, tag: TypeTag, text: Option<string>): Option<TypedObject> {
    if text.None? then None else parse(tag, text.value)
  }

  function TypedEntry(parse: Parse, regs: map<ConfigIdentity, TypeTag>, cache: ConfigItems, identity: ConfigIdentity): Option<TypedObject> {
    if identity in regs then ParseAs(parse, regs[identity], ParsableText(cache, identity)) else None
  }

  function Stamped(items: ConfigItems, at: Time): ConfigItems {
    map identity | identity in items :: items[identity].(loadedAt := at)
  }

  function TypedFrom(parse: Parse, regs: map<ConfigIdentity, TypeTag>, cache: ConfigItems): map<ConfigIdentity, TypedObject> {
    map identity | identity in cache && TypedEntry(parse, regs, cache, identity).Some? ::
      TypedEntry(parse, regs, cache, identity).value
  }

  function AfterApply(parse: Parse, s: ClientState, snapshot: Snapshot, at: Time): ClientState {
    var next := Stamped(snapshot.items, at);
    s.(cache := next, typedCache := TypedFrom(parse, s.typedRegs, next),
       repoVersion := snapshot.repoVersion, lastVersionCheck := at)
  }

  function AfterRegister(parse: Parse, s: ClientState, identity: ConfigIdentity, tag: TypeTag): ClientState {
    var parsed := ParseAs(parse, tag, ParsableText(s.cache, identity));
    s.(typedRegs := s.typedRegs[identity := tag],
       typedCache := if parsed.Some? then s.typedCache[identity := parsed.value] else s.typedCache)
  }

  /** A call of Register. */
  datatype Registration = Registration(identity: ConfigIdentity, tag: TypeTag)

  function AfterRegistrations(parse: Parse, s: ClientState, calls: seq<Registration>): ClientState {
    if calls == [] then s
    else
      var last := calls[|calls| - 1];
      AfterRegister(parse, AfterRegistrations(parse, s, calls[..|calls| - 1]), last.identity, last.tag)
  }

  /** A typed handle's Get: the cached object, if it can be asserted to the handle's type. */
  function TypedGet(asserts: Asserts, s: ClientState, identity: ConfigIdentity, tag: TypeTag): Option<TypedObject> {
    if identity in s.typedCache && asserts(tag, s.typedCache[identity].tag) then Some(s.typedCache[identity]) else None
  }

  predicate CircuitOpen(settings: Settings, circuit: Circuit, now: Time) {
    settings.serverMode && circuit.openUntil.Some? && now < circuit.openUntil.value
  }

  function AfterFailure(settings: Settings, s: ClientState, now: Time): ClientState {
    if !settings.serverMode then s.(lastRefreshErr := Some(StoreError))
    else
      var failures := s.circuit.failures + 1;
      if failures < settings.threshold then
        s.(lastRefreshErr := Some(StoreError), circuit := s.circuit.(failures := failures))
      else
        var until := now + settings.openDuration;
        s.(lastRefreshErr := Some(TrippedError(failures, until)), circuit := Circuit(failures, Some(until)))
  }

  function AfterSuccess(settings: Settings, s: ClientState): ClientState {
    s.(lastRefreshErr := None, circuit := if settings.serverMode then CLOSED else s.circuit)
  }

  /** One refresh: when it starts, what the store answers (None is an error) and the time the
      client reads after each answer. */
  datatype RefreshIO = RefreshIO(
    now: Time, version: Option<string>, versionAt: Time, snapshot: Option<Snapshot>, snapshotAt: Time)

  /** WithinTtl and BreakerOpen do not reach the store. */
  datatype Outcome = WithinTtl | BreakerOpen | Failed(at: Time) | Unchanged | Reloaded

  function OutcomeOf(settings: Settings, s: ClientState, io: RefreshIO): Outcome {
    if io.now - s.lastVersionCheck < s.maxCacheTtl then WithinTtl
    else if CircuitOpen(settings, s.circuit, io.now) then BreakerOpen
    else if io.version.None? then Failed(io.versionAt)
    else if io.version.value == s.repoVersion then Unchanged
    else if io.snapshot.None? then Failed(io.snapshotAt)
    else Reloaded
  }

  function AfterRefresh(settings: Settings, parse: Parse, s: ClientState, io: RefreshIO): ClientState {
    match OutcomeOf(settings, s, io)
    case WithinTtl => s
    case BreakerOpen => s.(lastRefreshErr := Some(BreakerOpenError(s.circuit.openUntil.value)))
    case Failed(at) => AfterFailure(settings, s, at)
    case Unchanged => AfterSuccess(settings, s.(lastVersionCheck := io.versionAt))
    case Reloaded => AfterSuccess(settings, AfterApply(parse, s, io.snapshot.value, io.snapshotAt))
  }

  /** Registrations touch only what Register is about, and nothing that the rest of a refresh
      changes touches that. */
  lemma {:induction false} RegistrationsCommute(settings: Settings, parse: Parse, s: ClientState, calls: seq<Registration>)
    ensures AfterRegistrations(parse, AfterSuccess(settings, s), calls)
         == AfterSuccess(settings, AfterRegistrations(parse, s, calls))
    ensures
      var s' := AfterRegistrations(parse, s, calls);
      s' == s.(typedRegs := s'.typedRegs, typedCache := s'.typedCache)
  {
    if calls != [] {
      RegistrationsCommute(settings, parse, s, calls[..|calls| - 1]);
    }
  }

  datatype MetaConfig = MetaConfig(refreshInterval: Time, maxCacheTtl: Time)

  /** Settings of the service that are not positive do not count. */
  function AfterMeta(s: ClientState, meta: MetaConfig): ClientState {
    s.(refreshInterval := if meta.refreshInterval > 0 then meta.refreshInterval else s.refreshInterval,
       maxCacheTtl := if meta.maxCacheTtl > 0 then meta.maxCacheTtl else s.maxCacheTtl)
  }

  /** Init: a failing meta request keeps the settings, a failing snapshot fails Init. */
  function AfterInit(
    parse: Parse, s: ClientState, meta: Option<MetaConfig>, snapshot: Option<Snapshot>, at: Time): ClientState
  {
    var configured := if meta.Some? then AfterMeta(s, meta.value) else s;
    if snapshot.None? then configured
    else AfterApply(parse, configured, snapshot.value, at).(initialized := true)
  }

  class Client {
    const settings: Settings
    const parse: Parse
    const asserts: Asserts
    var cache: ConfigItems
    var typedRegs: map<ConfigIdentity, TypeTag>
    var typedCache: map<ConfigIdentity, TypedObject>
    var repoVersion: string
    var initialized: bool
    var lastVersionCheck: Time
    var maxCacheTtl: Time
    var refreshInterval: Time
    var lastRefreshErr: Option<RefreshError>
    var circuit: Circuit

    ghost function State(): ClientState
      reads this
    {
      ClientState(
        cache, typedRegs, typedCache, repoVersion, initialized, lastVersionCheck, maxCacheTtl, refreshInterval,
        lastRefreshErr, circuit)
    }

    constructor (settings: Settings, parse: Parse, asserts: Asserts, maxCacheTtl: Time, refreshInterval: Time)
      ensures this.settings == settings && this.parse == parse && this.asserts == asserts
      ensures State() == ClientState(map[], map[], map[], "", false, 0, maxCacheTtl, refreshInterval, None, CLOSED)
    {
      this.settings, this.parse, this.asserts := settings, parse, asserts;
      cache, typedRegs, typedCache := map[], map[], map[];
      repoVersion, initialized, lastVersionCheck := "", false, 0;
      this.maxCacheTtl, this.refreshInterval := maxCacheTtl, refreshInterval;
      lastRefreshErr, circuit := None, CLOSED;
    }

    method Register(identity: ConfigIdentity, tag: TypeTag)
      modifies this
      ensures State() == AfterRegister(parse, old(State()), identity, tag)
    {
      typedRegs := typedRegs[identity := tag];
      if identity in cache && !cache[identity].deleted && cache[identity].value != "" {
        var value := parse(tag, cache[identity].value);
        if value.Some? {
          typedCache := typedCache[identity := value.value];
        }
      }
    }

    method GetConfigOK(namespace: string, configKey: string) returns (value: Option<string>)
      ensures
        var identity := ConfigIdentity(namespace, configKey);
        value == if identity in ClientView(cache) then Some(ClientView(cache)[identity]) else None
    {
      var identity := ConfigIdentity(namespace, configKey);
      if identity !in cache || cache[identity].deleted {
        return None;
      }
      value := Some(cache[identity].value);
    }

    method GetTyped(identity: ConfigIdentity, tag: TypeTag) returns (value: Option<TypedObject>)
      ensures value == TypedGet(asserts, State(), identity, tag)
    {
      if identity !in typedCache || !asserts(tag, typedCache[identity].tag) {
        return None;
      }
      value := Some(typedCache[identity]);
    }

    /** The loop over the loaded items fills both maps, which are then swapped in together. */
    method ApplySnapshot(snapshot: Snapshot, at: Time)
      modifies this
      ensures State() == AfterApply(parse, old(State()), snapshot, at)
    {
      var next: ConfigItems := map[];
      var nextTyped: map<ConfigIdentity, TypedObject> := map[];
      var remaining := snapshot.items.Keys;
      ghost var all := Stamped(snapshot.items, at);
      while remaining != {}
        invariant remaining <= snapshot.items.Keys
        invariant next.Keys == all.Keys - remaining
        invariant forall identity :: identity in next ==> next[identity] == all[identity]
        invariant nextTyped.Keys <= next.Keys
        invariant forall identity :: identity in next ==>
          var entry := TypedEntry(parse, typedRegs, all, identity);
          if entry.Some? then identity in nextTyped && nextTyped[identity] == entry.value else identity !in nextTyped
        decreases remaining
      {
        var identity :| identity in remaining;
        remaining := remaining - {identity};
        var item := snapshot.items[identity].(loadedAt := at);
        next := next[identity := item];
        if identity in typedRegs && !item.deleted && item.value != "" {
          var value := parse(typedRegs[identity], item.value);
          if value.Some? {
            nextTyped := nextTyped[identity := value.value];
          }
        }
      }
      assert next == all;
      cache, typedCache, repoVersion, lastVersionCheck := next, nextTyped, snapshot.repoVersion, at;
    }

    method RecordRefreshFailure(now: Time)
      modifies this`lastRefreshErr, this`circuit
      ensures State() == AfterFailure(settings, old(State()), now)
    {
      lastRefreshErr := Some(StoreError);
      if !settings.serverMode {
        return;
      }
      circuit := circuit.(failures := circuit.failures + 1);
      if circuit.failures < settings.threshold {
        return;
      }
      circuit := circuit.(openUntil := Some(now + settings.openDuration));
      lastRefreshErr := Some(TrippedError(circuit.failures, circuit.openUntil.value));
    }

    method RecordRefreshSuccess()
      modifies this`lastRefreshErr, this`circuit
      ensures State() == AfterSuccess(settings, old(State()))
    {
      lastRefreshErr := None;
      if settings.serverMode {
        circuit := CLOSED;
      }
    }

    method RegisterAll(calls: seq<Registration>)
      modifies this
      ensures State() == AfterRegistrations(parse, old(State()), calls)
    {
      for k := 0 to |calls|
        invariant State() == AfterRegistrations(parse, old(State()), calls[..k])
      {
        assert calls[..k + 1][..k] == calls[..k];
        Register(calls[k].identity, calls[k].tag);
      }
      assert calls[..|calls|] == calls;
    }

    /** Any failure, and an open breaker, leave the cached configuration alone. Registrations
        that get the mutex between the refresh's critical sections act as if made before it
        (`early`) or, from its change of the caches or of the check time on, after it
        (`late`). */
    method Refresh(io: RefreshIO, early: seq<Registration>, late: seq<Registration>) returns (outcome: Outcome)
      modifies this
      ensures outcome == OutcomeOf(settings, old(State()), io)
      ensures State()
           == AfterRegistrations(
                parse, AfterRefresh(settings, parse, AfterRegistrations(parse, old(State()), early), io), late)
    {
      var localVersion, lastCheck, ttl := repoVersion, lastVersionCheck, maxCacheTtl;
      RegistrationsCommute(settings, parse, State(), early);
      RegisterAll(early);
      ghost var begun := State();
      assert OutcomeOf(settings, begun, io) == OutcomeOf(settings, old(State()), io);
      if io.now - lastCheck < ttl {
        RegisterAll(late);
        return WithinTtl;
      }
      if settings.serverMode && circuit.openUntil.Some? && io.now < circuit.openUntil.value {
        lastRefreshErr := Some(BreakerOpenError(circuit.openUntil.value));
        RegisterAll(late);
        return BreakerOpen;
      }
      if io.version.None? {
        RecordRefreshFailure(io.versionAt);
        RegisterAll(late);
        return Failed(io.versionAt);
      }
      if io.version.value == localVersion {
        lastVersionCheck := io.versionAt;
        RegistrationsCommute(settings, parse, State(), late);
        RegisterAll(late);
        RecordRefreshSuccess();
        return Unchanged;
      }
      if io.snapshot.None? {
        RecordRefreshFailure(io.snapshotAt);
        RegisterAll(late);
        return Failed(io.snapshotAt);
      }
      ApplySnapshot(io.snapshot.value, io.snapshotAt);
      RegistrationsCommute(settings, parse, State(), late);
      RegisterAll(late);
      RecordRefreshSuccess();
      return Reloaded;
    }

    method ApplyMetaConfig(meta: MetaConfig)
      modifies this`refreshInterval, this`maxCacheTtl
      ensures State() == AfterMeta(old(State()), meta)
    {
      if meta.refreshInterval > 0 {
        refreshInterval := meta.refreshInterval;
      }
      if meta.maxCacheTtl > 0 {
        maxCacheTtl := meta.maxCacheTtl;
      }
    }

    method Init(meta: Option<MetaConfig>, snapshot: Option<Snapshot>, at: Time) returns (ok: bool)
      modifies this
      ensures ok <==> snapshot.Some?
      ensures State() == AfterInit(parse, old(State()), meta, snapshot, at)
    {
      if meta.Some? {
        ApplyMetaConfig(meta.value);
      }
      if snapshot.None? {
        return false;
      }
      ApplySnapshot(snapshot.value, at);
      initialized := true;
      ok := true;
    }

    method IsDegraded() returns (degraded: bool)
      ensures degraded <==> Degraded(State())
    {
      degraded := lastRefreshErr.Some? && initialized;
    }
  }

  predicate Degraded(s: ClientState) {
    s.lastRefreshErr.Some? && s.initialized
  }
}
