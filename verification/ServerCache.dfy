/** A server's cache (server/cache.go), the refresher that fills it
    (server/cache_refresher.go), and the transport of a snapshot from the handler
    (server/handler.go) to the client's map (client_sdk/http_store.go). */
module ServerCache {
  import opened ConfigTypes

  /** What Get answers: the text of a live entry. */
  function Serve(items: CachedItems, identity: ConfigIdentity): Option<string> {
    if identity !in items || items[identity].deleted then None else Some(items[identity].value)
  }

  class ConfigCache {
    var items: CachedItems
    var repoVersion: string
    var loadedAt: Time

    constructor ()
      ensures items == map[] && repoVersion == "" && loadedAt == 0
    {
      items, repoVersion, loadedAt := map[], "", 0;
    }

    method Get(namespace: string, key: string) returns (value: Option<string>)
      ensures value == Serve(items, ConfigIdentity(namespace, key))
    {
      var identity := ConfigIdentity(namespace, key);
      if identity !in items || items[identity].deleted {
        return None;
      }
      value := Some(items[identity].value);
    }

    method Snapshot() returns (result: CachedItems)
      ensures result == items
    {
      result := CopyItems(items);
    }

    method Replace(newItems: CachedItems, version: string, at: Time)
      modifies this
      ensures items == newItems && repoVersion == version && loadedAt == at
    {
      var next := CopyItems(newItems);
      items, repoVersion, loadedAt := next, version, at;
    }
  }

  /** The copy loop of Snapshot and Replace. */
  method CopyItems(items: CachedItems) returns (result: CachedItems)
    ensures result == items
  {
    result := map[];
    var remaining := items.Keys;
    while remaining != {}
      invariant remaining <= items.Keys
      invariant result == map identity | identity in items && identity !in remaining :: items[identity]
      decreases remaining
    {
      var identity :| identity in remaining;
      result := result[identity := items[identity]];
      remaining := remaining - {identity};
    }
  }

  /** What a snapshot reader answers to the two calls of one refresh; None is an error. */
  datatype ReaderAnswers = ReaderAnswers(version: Option<string>, snapshot: Option<CacheSnapshot>)

  class CacheRefresher {
    const cache: ConfigCache

    constructor (cache: ConfigCache)
      ensures this.cache == cache
    {
      this.cache := cache;
    }

    /** A failed refresh and one that finds the version unchanged leave the cache alone;
        otherwise label and items are replaced together. */
    method Refresh(answers: ReaderAnswers, at: Time) returns (ok: bool)
      modifies cache
      ensures ok <==> answers.version.Some?
                      && (answers.version.value == old(cache.repoVersion) || answers.snapshot.Some?)
      ensures !ok || answers.version.value == old(cache.repoVersion) ==> unchanged(cache)
      ensures ok && answers.version.value != old(cache.repoVersion) ==>
        && cache.items == answers.snapshot.value.items
        && cache.repoVersion == answers.snapshot.value.repoVersion
        && cache.loadedAt == at
    {
      if answers.version.None? {
        return false;
      }
      if answers.version.value == cache.repoVersion {
        return true;
      }
      if answers.snapshot.None? {
        return false;
      }
      cache.Replace(answers.snapshot.value.items, answers.snapshot.value.repoVersion, at);
      return true;
    }
  }

  // ----- the snapshot endpoint -----

  datatype ConfigItemDTO = ConfigItemDTO(namespace: string, configKey: string, value: string, deleted: bool)

  datatype SnapshotResponse = SnapshotResponse(repoVersion: string, items: seq<ConfigItemDTO>)

  function IdentityOf(dto: ConfigItemDTO): ConfigIdentity {
    ConfigIdentity(dto.namespace, dto.configKey)
  }

  ghost predicate InList(dtos: seq<ConfigItemDTO>, identity: ConfigIdentity) {
    exists k :: 0 <= k < |dtos| && IdentityOf(dtos[k]) == identity
  }

  /** The list names every live entry once, in some order, and nothing else. */
  ghost predicate ListsLive(items: CachedItems, dtos: seq<ConfigItemDTO>) {
    && (forall i, j :: 0 <= i < j < |dtos| ==> IdentityOf(dtos[i]) != IdentityOf(dtos[j]))
    && (forall k :: 0 <= k < |dtos| ==> Serve(items, IdentityOf(dtos[k])) == Some(dtos[k].value) && !dtos[k].deleted)
    && (forall identity :: Serve(items, identity).Some? ==> InList(dtos, identity))
  }

  method ListItems(snapshot: CachedItems) returns (dtos: seq<ConfigItemDTO>)
    ensures ListsLive(snapshot, dtos)
  {
    dtos := [];
    var remaining := snapshot.Keys;
    while remaining != {}
      invariant remaining <= snapshot.Keys
      invariant forall i, j :: 0 <= i < j < |dtos| ==> IdentityOf(dtos[i]) != IdentityOf(dtos[j])
      invariant forall k :: 0 <= k < |dtos| ==>
        && IdentityOf(dtos[k]) !in remaining
        && Serve(snapshot, IdentityOf(dtos[k])) == Some(dtos[k].value) && !dtos[k].deleted
      invariant forall identity :: Serve(snapshot, identity).Some? && identity !in remaining ==> InList(dtos, identity)
      decreases remaining
    {
      var identity :| identity in remaining;
      remaining := remaining - {identity};
      var item := snapshot[identity];
      if item.deleted {
        continue;
      }
      ghost var before := dtos;
      dtos := dtos + [ConfigItemDTO(identity.namespace, identity.configKey, item.value, item.deleted)];
      forall other | InList(before, other) ensures InList(dtos, other) {
        var k :| 0 <= k < |before| && IdentityOf(before[k]) == other;
        assert IdentityOf(dtos[k]) == other;
      }
      assert IdentityOf(dtos[|before|]) == identity;
    }
  }

  /** What the refresher puts into the cache between two of its readers' reads. */
  method LetRefresherReplace(cache: ConfigCache, meanwhile: seq<CacheSnapshot>, at: Time)
    modifies cache
    ensures meanwhile == [] ==> unchanged(cache)
    ensures meanwhile != [] ==>
      && cache.items == meanwhile[|meanwhile| - 1].items
      && cache.repoVersion == meanwhile[|meanwhile| - 1].repoVersion
  {
    for k := 0 to |meanwhile|
      invariant k == 0 ==> unchanged(cache)
      invariant k > 0 ==> cache.items == meanwhile[k - 1].items && cache.repoVersion == meanwhile[k - 1].repoVersion
    {
      cache.Replace(meanwhile[k].items, meanwhile[k].repoVersion, at);
    }
  }

  /** The handler copies the items first and reads the version second, whatever is replaced
      in between. */
  method ServeSnapshot(cache: ConfigCache, meanwhile: seq<CacheSnapshot>, at: Time) returns (response: SnapshotResponse)
    modifies cache
    ensures ListsLive(old(cache.items), response.items)
    ensures response.repoVersion == cache.repoVersion
    ensures meanwhile == [] ==> unchanged(cache)
    ensures meanwhile != [] ==>
      && cache.items == meanwhile[|meanwhile| - 1].items
      && cache.repoVersion == meanwhile[|meanwhile| - 1].repoVersion
  {
    var snapshot := cache.Snapshot();
    var items := ListItems(snapshot);
    LetRefresherReplace(cache, meanwhile, at);
    response := SnapshotResponse(cache.repoVersion, items);
  }

  /** The client's loop over the decoded list. */
  function Rebuilt(dtos: seq<ConfigItemDTO>, at: Time): ConfigItems {
    if dtos == [] then map[]
    else
      var last := dtos[|dtos| - 1];
      Rebuilt(dtos[..|dtos| - 1], at)[IdentityOf(last) := ConfigItem(last.value, last.deleted, at)]
  }

  method RebuildItems(dtos: seq<ConfigItemDTO>, at: Time) returns (items: ConfigItems)
    ensures items == Rebuilt(dtos, at)
  {
    items := map[];
    for k := 0 to |dtos|
      invariant items == Rebuilt(dtos[..k], at)
    {
      assert dtos[..k + 1][..k] == dtos[..k];
      items := items[IdentityOf(dtos[k]) := ConfigItem(dtos[k].value, dtos[k].deleted, at)];
    }
    assert dtos[..|dtos|] == dtos;
  }

  lemma {:induction false} RebuiltPointwise(dtos: seq<ConfigItemDTO>, at: Time, identity: ConfigIdentity)
    requires forall i, j :: 0 <= i < j < |dtos| ==> IdentityOf(dtos[i]) != IdentityOf(dtos[j])
    ensures identity in Rebuilt(dtos, at) <==> InList(dtos, identity)
    ensures forall k :: 0 <= k < |dtos| && IdentityOf(dtos[k]) == identity ==>
      identity in Rebuilt(dtos, at) && Rebuilt(dtos, at)[identity] == ConfigItem(dtos[k].value, dtos[k].deleted, at)
  {
    if dtos != [] {
      var before := dtos[..|dtos| - 1];
      RebuiltPointwise(before, at, identity);
      if InList(before, identity) {
        var k :| 0 <= k < |before| && IdentityOf(before[k]) == identity;
        assert dtos[k] == before[k];
      } else if InList(dtos, identity) {
        assert IdentityOf(dtos[|dtos| - 1]) == identity;
      }
    }
  }

  /** Whatever the iteration order, the client's lookups agree with the server's for every
      key. */
  lemma TransportPreservesView(items: CachedItems, dtos: seq<ConfigItemDTO>, at: Time)
    requires ListsLive(items, dtos)
    ensures ClientView(Rebuilt(dtos, at)) == CachedView(items)
  {
    forall identity
      ensures identity in ClientView(Rebuilt(dtos, at)) <==> identity in CachedView(items)
      ensures identity in CachedView(items) ==> ClientView(Rebuilt(dtos, at))[identity] == CachedView(items)[identity]
    {
      RebuiltPointwise(dtos, at, identity);
      if InList(dtos, identity) {
        var k :| 0 <= k < |dtos| && IdentityOf(dtos[k]) == identity;
        assert Serve(items, IdentityOf(dtos[k])) == Some(dtos[k].value);
      }
      if identity in CachedView(items) {
        assert Serve(items, identity).Some?;
      }
    }
  }
}
