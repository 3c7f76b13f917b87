/** The values the server and the client pass around: identities, files fetched from
    git, and the two results a fallible call can have. Times are nanoseconds. */
module ConfigTypes {
  datatype Option<+T> = None | Some(value: T)

  type Time = int

  const SECOND: Time := 1_000_000_000

  datatype ConfigIdentity = ConfigIdentity(namespace: string, configKey: string)

  datatype FetchedConfig = FetchedConfig(path: string, content: string)

  /** What a git commit holds below the configured root. */
  type Tree = map<ConfigIdentity, FetchedConfig>

  /** What a reader of the configuration sees: the text of every live entry. */
  type View = map<ConfigIdentity, string>

  function ContentView(tree: Tree): View {
    map identity | identity in tree :: tree[identity].content
  }

  /** A server-side cache entry. */
  datatype CachedItem = CachedItem(value: string, deleted: bool)

  type CachedItems = map<ConfigIdentity, CachedItem>

  function CachedView(items: CachedItems): View {
    map identity | identity in items && !items[identity].deleted :: items[identity].value
  }

  datatype CacheSnapshot = CacheSnapshot(repoVersion: string, items: CachedItems)

  /** A client-side cache entry. */
  datatype ConfigItem = ConfigItem(value: string, deleted: bool, loadedAt: Time)

  type ConfigItems = map<ConfigIdentity, ConfigItem>

  datatype Snapshot = Snapshot(repoVersion: string, items: ConfigItems)

  function ClientView(items: ConfigItems): View {
    map identity | identity in items && !items[identity].deleted :: items[identity].value
  }

  ghost predicate Distinct<T(!new)>(s: seq<T>) {
    forall i, j :: 0 <= i < j < |s| ==> s[i] != s[j]
  }
}
