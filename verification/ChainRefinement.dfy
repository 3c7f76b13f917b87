/** The caches' own code makes exactly the steps of the chain: a refresher's refresh over the
    MySQL store (server/cache_refresher.go, server/store.go), and a client's refresh over the
    handler (client_sdk/client.go, client_sdk/http_store.go, server/handler.go). */
module ChainRefinement {
  import opened ConfigTypes
  import opened ConfigTable
  import opened MySqlStore
  import opened ServerCache
  import C = CacheChain
  import opened ConfigClient

  function Pair(version: string, table: Table): C.Published {
    C.Published(version, LiveView(table))
  }

  function CachePair(version: string, items: CachedItems): C.Published {
    C.Published(version, CachedView(items))
  }

  function ClientPair(s: ClientState): C.Published {
    C.Published(s.repoVersion, ClientView(s.cache))
  }

  // ----- a server's refresh -----

  /** Which query of a refresh fails, if one does. */
  datatype ReaderFault = NoFault | CheckFails | LabelFails | ItemsFail

  /** The steps of one refresh, with the database as it is at the version check, at the read of
      the label and at the read of the items. */
  function RefreshSteps(
    r: C.Reader, fault: ReaderFault, check: C.Published, labelled: C.Published, loaded: C.Published): C.Reader
    requires r.phase.Resting?
  {
    var asked := C.ReaderStep(r, C.CheckVersion, check);
    if fault.CheckFails? then C.ReaderStep(asked, C.GiveUp, check)
    else if C.ReaderEnabled(asked, C.KeepCopy) then C.ReaderStep(asked, C.KeepCopy, check)
    else if fault.LabelFails? then C.ReaderStep(asked, C.GiveUp, labelled)
    else
      var read := C.ReaderStep(asked, C.ReadLabel, labelled);
      if fault.ItemsFail? then C.ReaderStep(read, C.GiveUp, loaded)
      else C.ReaderStep(C.ReaderStep(read, C.ReadItems, loaded), C.Install, loaded)
  }

  /** The refresher and the store: `first` commits between the check and the load, `second`
      between the load's two queries. */
  method RefreshServer(
    store: MySQLStore, refresher: CacheRefresher, first: seq<Transaction>, second: seq<Transaction>,
    fault: ReaderFault, at: Time) returns (ok: bool)
    modifies store, refresher.cache
    ensures ok <==> fault.NoFault?
                    || (!fault.CheckFails? && old(store.repoVersion) == old(refresher.cache.repoVersion))
    ensures
      var check := Pair(old(store.repoVersion), old(store.current));
      var table1 := ApplyAll(store.hash, old(store.current), first);
      var version1 := VersionAfter(old(store.repoVersion), first);
      var table2 := ApplyAll(store.hash, table1, second);
      var before := C.Reader(CachePair(old(refresher.cache.repoVersion), old(refresher.cache.items)), C.Resting);
      RefreshSteps(before, fault, check, Pair(version1, table1), Pair(VersionAfter(version1, second), table2))
      == C.Reader(CachePair(refresher.cache.repoVersion, refresher.cache.items), C.Resting)
  {
    var version := store.repoVersion;
    store.LetOthersCommit(first);
    var snapshot: Option<CacheSnapshot> := None;
    if fault.NoFault? && version != refresher.cache.repoVersion {
      var loaded := store.LoadSnapshot(second);
      snapshot := Some(loaded);
    }
    ok := refresher.Refresh(ReaderAnswers(if fault.CheckFails? then None else Some(version), snapshot), at);
  }

  // ----- a client's refresh -----

  /** Which request of a refresh fails, if one does. */
  datatype ClientFault = AllServed | VersionFails | SnapshotFails

  const ASKING := 0
  const SERVING := 1

  /** The caches of the server that answers the version and of the one that answers the
      snapshot, which may be the same. */
  function Servers(asking: C.Published, serving: C.Published): seq<C.Reader> {
    [C.Reader(asking, C.Resting), C.Reader(serving, C.Resting)]
  }

  /** The steps of one refresh that reaches the servers, as they are when the version is
      answered, when the handler copies the items and when it reads the label. */
  function ClientRefreshSteps(
    c: C.HttpClient, fault: ClientFault, asked: seq<C.Reader>, listed: seq<C.Reader>, labelled: seq<C.Reader>): C.HttpClient
    requires c.phase.Quiet? && |asked| == |listed| == |labelled| == 2
  {
    var got := C.ClientStep(asked, c, C.AskVersion(ASKING));
    if fault.VersionFails? then C.ClientStep(asked, got, C.RequestFails)
    else if C.ClientEnabled(asked, got, C.KeepView) then C.ClientStep(asked, got, C.KeepView)
    else
      var items := C.ClientStep(listed, got, C.AskSnapshot(SERVING));
      if fault.SnapshotFails? then C.ClientStep(listed, items, C.RequestFails)
      else C.ClientStep(labelled, C.ClientStep(labelled, items, C.ReadVersion), C.ApplySnapshot)
  }

  function LastPair(copy: C.Published, meanwhile: seq<CacheSnapshot>): C.Published {
    if meanwhile == [] then copy
    else CachePair(meanwhile[|meanwhile| - 1].repoVersion, meanwhile[|meanwhile| - 1].items)
  }

  /** A client's snapshot request that is served, up to the decoded snapshot. */
  method RequestSnapshot(serving: ConfigCache, meanwhile: seq<CacheSnapshot>, at: Time) returns (snapshot: Snapshot)
    modifies serving
    ensures
      var copy := LastPair(CachePair(old(serving.repoVersion), old(serving.items)), meanwhile);
      && CachePair(serving.repoVersion, serving.items) == copy
      && snapshot.repoVersion == copy.version
      && ClientView(snapshot.items) == CachedView(old(serving.items))
  {
    ghost var listed := serving.items;
    var response := ServeSnapshot(serving, meanwhile, at);
    var items := RebuildItems(response.items, at);
    TransportPreservesView(listed, response.items, at);
    snapshot := Snapshot(response.repoVersion, items);
  }

  /** The refresh is not due yet, or the breaker is open. */
  predicate StaysLocal(settings: Settings, s: ClientState, now: Time) {
    now - s.lastVersionCheck < s.maxCacheTtl || CircuitOpen(settings, s.circuit, now)
  }

  /** Any refresh: the serving server's refresher replaces its cache by `first` before the
      snapshot request and by `second` between the handler's two reads. */
  method RefreshClient(
    client: Client, asking: ConfigCache, serving: ConfigCache, now: Time,
    first: seq<CacheSnapshot>, second: seq<CacheSnapshot>, fault: ClientFault) returns (outcome: Outcome)
    modifies client, serving
    ensures outcome == WithinTtl || outcome == BreakerOpen <==> StaysLocal(client.settings, old(client.State()), now)
    ensures
      var before := C.HttpClient(ClientPair(old(client.State())), C.Quiet);
      var asked := CachePair(old(asking.repoVersion), old(asking.items));
      var served0 := CachePair(old(serving.repoVersion), old(serving.items));
      var served1 := LastPair(served0, first);
      var served2 := LastPair(served1, second);
      C.HttpClient(ClientPair(client.State()), C.Quiet)
      == if StaysLocal(client.settings, old(client.State()), now) then before
         else ClientRefreshSteps(before, fault, Servers(asked, served0), Servers(asked, served1), Servers(asked, served2))
  {
    var version := asking.repoVersion;
    LetRefresherReplace(serving, first, now);
    var snapshot: Option<Snapshot> := None;
    if fault.AllServed? && version != client.repoVersion {
      var served := RequestSnapshot(serving, second, now);
      snapshot := Some(served);
    }
    var io := RefreshIO(now, if fault.VersionFails? then None else Some(version), now, snapshot, now);
    RefreshedPair(client.settings, client.parse, client.State(), io);
    outcome := client.Refresh(io, [], []);
  }

  // ----- a client's first load -----

  /** The steps of Init over a server: no version is compared. */
  function ClientInitSteps(
    c: C.HttpClient, fails: bool, listed: seq<C.Reader>, labelled: seq<C.Reader>): C.HttpClient
    requires c.phase.Quiet? && |listed| == |labelled| == 1
  {
    var items := C.ClientStep(listed, c, C.AskAtStart(0));
    if fails then C.ClientStep(listed, items, C.RequestFails)
    else C.ClientStep(labelled, C.ClientStep(labelled, items, C.ReadVersion), C.ApplySnapshot)
  }

  method InitClient(
    client: Client, serving: ConfigCache, meta: Option<MetaConfig>, meanwhile: seq<CacheSnapshot>, fails: bool, at: Time)
    returns (ok: bool)
    modifies client, serving
    ensures ok <==> !fails
    ensures
      var served := CachePair(old(serving.repoVersion), old(serving.items));
      C.HttpClient(ClientPair(client.State()), C.Quiet)
      == ClientInitSteps(
           C.HttpClient(ClientPair(old(client.State())), C.Quiet), fails,
           [C.Reader(served, C.Resting)], [C.Reader(LastPair(served, meanwhile), C.Resting)])
  {
    var snapshot: Option<Snapshot> := None;
    if !fails {
      var served := RequestSnapshot(serving, meanwhile, at);
      snapshot := Some(served);
    }
    LoadedPair(client.parse, client.State(), meta, snapshot, at);
    ok := client.Init(meta, snapshot, at);
  }

  // ----- a client on MySQL -----

  /** It takes a server's steps, when its refresh is due. */
  method RefreshMySqlClient(
    client: Client, store: MySQLStore, now: Time, first: seq<Transaction>, second: seq<Transaction>, fault: ReaderFault)
    returns (outcome: Outcome)
    modifies client, store
    ensures outcome == WithinTtl || outcome == BreakerOpen <==> StaysLocal(client.settings, old(client.State()), now)
    ensures
      var check := Pair(old(store.repoVersion), old(store.current));
      var table1 := ApplyAll(store.hash, old(store.current), first);
      var version1 := VersionAfter(old(store.repoVersion), first);
      var table2 := ApplyAll(store.hash, table1, second);
      var before := C.Reader(ClientPair(old(client.State())), C.Resting);
      C.Reader(ClientPair(client.State()), C.Resting)
      == if StaysLocal(client.settings, old(client.State()), now) then before
         else RefreshSteps(before, fault, check, Pair(version1, table1), Pair(VersionAfter(version1, second), table2))
  {
    var version := store.repoVersion;
    store.LetOthersCommit(first);
    var snapshot: Option<Snapshot> := None;
    if fault.NoFault? && version != client.repoVersion {
      var loaded := store.LoadClientSnapshot(second, now);
      snapshot := Some(loaded);
    }
    var io := RefreshIO(now, if fault.CheckFails? then None else Some(version), now, snapshot, now);
    RefreshedPair(client.settings, client.parse, client.State(), io);
    outcome := client.Refresh(io, [], []);
  }

  method InitMySqlClient(
    client: Client, store: MySQLStore, meta: Option<MetaConfig>, meanwhile: seq<Transaction>, fails: bool, at: Time)
    returns (ok: bool)
    modifies client, store
    ensures ok <==> !fails
    ensures
      var labelled := Pair(old(store.repoVersion), old(store.current));
      var table := ApplyAll(store.hash, old(store.current), meanwhile);
      var loaded := Pair(VersionAfter(old(store.repoVersion), meanwhile), table);
      var read := C.ReaderStep(C.Reader(ClientPair(old(client.State())), C.Resting), C.LoadAtStart, labelled);
      C.Reader(ClientPair(client.State()), C.Resting)
      == if fails then C.ReaderStep(read, C.GiveUp, loaded)
         else C.ReaderStep(C.ReaderStep(read, C.ReadItems, loaded), C.Install, loaded)
  {
    var snapshot: Option<Snapshot> := None;
    if !fails {
      var loaded := store.LoadClientSnapshot(meanwhile, at);
      snapshot := Some(loaded);
    }
    LoadedPair(client.parse, client.State(), meta, snapshot, at);
    ok := client.Init(meta, snapshot, at);
  }

  /** What Init does to label and view. */
  lemma LoadedPair(parse: Parse, s: ClientState, meta: Option<MetaConfig>, snapshot: Option<Snapshot>, at: Time)
    ensures ClientPair(AfterInit(parse, s, meta, snapshot, at))
         == if snapshot.Some? then C.Published(snapshot.value.repoVersion, ClientView(snapshot.value.items)) else ClientPair(s)
  {
    if snapshot.Some? {
      var items := snapshot.value.items;
      assert ClientView(Stamped(items, at)) == ClientView(items);
    }
  }

  /** What a refresh does to label and view. */
  lemma RefreshedPair(settings: Settings, parse: Parse, s: ClientState, io: RefreshIO)
    ensures ClientPair(AfterRefresh(settings, parse, s, io))
         == if OutcomeOf(settings, s, io).Reloaded?
            then C.Published(io.snapshot.value.repoVersion, ClientView(io.snapshot.value.items))
            else ClientPair(s)
  {
    if OutcomeOf(settings, s, io).Reloaded? {
      var items := io.snapshot.value.items;
      assert ClientView(Stamped(items, io.snapshotAt)) == ClientView(items);
    }
  }
}
