/** The MySQL tables as one object, with the server's statements on them (server/store.go).
    A statement or a commit can fail; the parameters say which one does. */
module MySqlStore {
  import opened ConfigTypes
  import opened ConfigTable
  import opened Lease

  /** A sync transaction of some instance. */
  datatype Transaction = Transaction(commit: string, upserts: seq<SyncConfigItem>, deletes: seq<DeletedConfigItem>)

  function ApplyAll(hash: Hash, table: Table, transactions: seq<Transaction>): Table {
    if transactions == [] then table
    else
      var last := transactions[|transactions| - 1];
      ApplyLists(hash, ApplyAll(hash, table, transactions[..|transactions| - 1]), last.upserts, last.deletes, last.commit)
  }

  /** The published version after these transactions. */
  function VersionAfter(version: string, transactions: seq<Transaction>): string {
    if transactions == [] then version else transactions[|transactions| - 1].commit
  }

  function LiveItems(table: Table): CachedItems {
    map identity | identity in table && !table[identity].deleted :: CachedItem(table[identity].content, false)
  }

  class MySQLStore {
    const hash: Hash
    var lock: LeaseRow
    var current: Table
    var checkpoint: string
    var repoVersion: string

    /** Fresh tables after InitMetadata. */
    constructor (hash: Hash)
      ensures this.hash == hash
      ensures lock == LeaseRow("", 0) && current == map[] && checkpoint == "" && repoVersion == ""
    {
      this.hash := hash;
      lock := LeaseRow("", 0);
      current := map[];
      checkpoint := "";
      repoVersion := "";
    }

    /** None is a failed statement. */
    method TryAcquireLock(at: Time, owner: string, ttl: Time, fails: bool) returns (taken: Option<bool>)
      modifies this`lock
      ensures fails ==> taken == None && lock == old(lock)
      ensures !fails ==>
        var e := LeaseEvent(at, Acquire(owner, ttl));
        lock == Execute(old(lock), e) && taken == Some(RowAffected(old(lock), e))
      ensures taken == Some(true) <==> !fails && old(lock).expireAt < DbNow(at)
      ensures taken == Some(true) ==> lock == LeaseRow(owner, DbNow(at) + LeaseSeconds(ttl))
      ensures taken != Some(true) ==> lock == old(lock)
    {
      if fails {
        return None;
      }
      LeaseCoversTtl(ttl);
      var before := lock;
      if lock.expireAt < DbNow(at) {
        lock := LeaseRow(owner, DbNow(at) + LeaseSeconds(ttl));
      }
      taken := Some(lock != before);
    }

    method RenewLock(at: Time, owner: string, ttl: Time, fails: bool) returns (renewed: Option<bool>)
      modifies this`lock
      ensures fails ==> renewed == None && lock == old(lock)
      ensures !fails ==>
        var e := LeaseEvent(at, Renew(owner, ttl));
        lock == Execute(old(lock), e) && renewed == Some(RowAffected(old(lock), e))
      ensures !fails && old(lock).owner == owner ==> lock == LeaseRow(owner, DbNow(at) + LeaseSeconds(ttl))
      ensures fails || old(lock).owner != owner ==> lock == old(lock)
    {
      if fails {
        return None;
      }
      var before := lock;
      if lock.owner == owner {
        lock := lock.(expireAt := DbNow(at) + LeaseSeconds(ttl));
      }
      renewed := Some(lock != before);
    }

    method ReleaseLock(at: Time, owner: string, fails: bool)
      modifies this`lock
      ensures lock == if fails then old(lock) else Execute(old(lock), LeaseEvent(at, Release(owner)))
      ensures lock == if !fails && old(lock).owner == owner then LeaseRow(owner, DbNow(at)) else old(lock)
    {
      if !fails && lock.owner == owner {
        lock := lock.(expireAt := DbNow(at));
      }
    }

    /** Statements of other instances on the lock row. */
    method LetOthersUseLock(events: seq<LeaseEvent>)
      modifies this`lock
      ensures lock == RowAt(old(lock), events, |events|)
    {
      for k := 0 to |events|
        invariant lock == RowAt(old(lock), events, k)
      {
        lock := Execute(lock, events[k]);
      }
    }

    /** The row scan of ListCurrent, in whatever order the rows come. */
    method ListCurrent() returns (records: Records)
      ensures records == RecordsOf(current)
    {
      records := map[];
      var remaining := current.Keys;
      while remaining != {}
        invariant remaining <= current.Keys
        invariant records == map identity | identity in current && identity !in remaining :: RecordOf(current[identity])
        decreases remaining
      {
        var identity :| identity in remaining;
        records := records[identity := RecordOf(current[identity])];
        remaining := remaining - {identity};
      }
    }

    /** Statements up to the commit of a transaction with these lists. */
    static function StatementCount(upserts: seq<SyncConfigItem>, deletes: seq<DeletedConfigItem>): nat {
      |upserts| + |deletes| + 3
    }

    /** One transaction: all of the table, the checkpoint and the version, or nothing. The
        statement number `faultAt`, if there is one, fails. */
    method ApplyChanges(
      commit: string, upserts: seq<SyncConfigItem>, deletes: seq<DeletedConfigItem>, faultAt: Option<nat>)
      returns (ok: bool)
      modifies this`current, this`checkpoint, this`repoVersion
      ensures ok <==> !(faultAt.Some? && faultAt.value < StatementCount(upserts, deletes))
      ensures ok ==> current == ApplyLists(hash, old(current), upserts, deletes, commit)
      ensures ok ==> checkpoint == commit && repoVersion == commit
      ensures !ok ==> current == old(current) && checkpoint == old(checkpoint) && repoVersion == old(repoVersion)
    {
      var tx := current;
      for k := 0 to |upserts|
        invariant tx == ApplyUpserts(current, upserts[..k], commit)
        invariant faultAt.Some? ==> faultAt.value >= k
      {
        if faultAt == Some(k) {
          return false;
        }
        assert upserts[..k + 1][..k] == upserts[..k];
        tx := WriteConfig(tx, upserts[k].(commit := commit), false);
      }
      assert upserts[..|upserts|] == upserts;
      var written := tx;
      for k := 0 to |deletes|
        invariant tx == ApplyDeletes(hash, written, deletes[..k], commit)
        invariant faultAt.Some? ==> faultAt.value >= |upserts| + k
      {
        if faultAt == Some(|upserts| + k) {
          return false;
        }
        assert deletes[..k + 1][..k] == deletes[..k];
        tx := WriteConfig(tx, Tombstone(hash, deletes[k], commit), true);
      }
      assert deletes[..|deletes|] == deletes;
      if faultAt.Some? && faultAt.value < StatementCount(upserts, deletes) {
        return false;
      }
      current, checkpoint, repoVersion := tx, commit, commit;
      ok := true;
    }

    /** What other instances commit between two queries. */
    method LetOthersCommit(meanwhile: seq<Transaction>)
      modifies this`current, this`checkpoint, this`repoVersion
      ensures current == ApplyAll(hash, old(current), meanwhile)
      ensures checkpoint == VersionAfter(old(checkpoint), meanwhile)
      ensures repoVersion == VersionAfter(old(repoVersion), meanwhile)
    {
      for k := 0 to |meanwhile|
        invariant current == ApplyAll(hash, old(current), meanwhile[..k])
        invariant checkpoint == VersionAfter(old(checkpoint), meanwhile[..k])
        invariant repoVersion == VersionAfter(old(repoVersion), meanwhile[..k])
      {
        var other := meanwhile[k];
        assert meanwhile[..k + 1][..k] == meanwhile[..k];
        var _ := ApplyChanges(other.commit, other.upserts, other.deletes, None);
      }
      assert meanwhile[..|meanwhile|] == meanwhile;
    }

    /** The server's load: the version first, the live rows second, with whatever other
        instances commit in between. The label is never newer than the items. */
    method LoadSnapshot(meanwhile: seq<Transaction>) returns (snapshot: CacheSnapshot)
      modifies this`current, this`checkpoint, this`repoVersion
      ensures snapshot.repoVersion == old(repoVersion)
      ensures current == ApplyAll(hash, old(current), meanwhile)
      ensures snapshot.items == LiveItems(current) && CachedView(snapshot.items) == LiveView(current)
    {
      var version := repoVersion;
      LetOthersCommit(meanwhile);
      var items: CachedItems := map[];
      var live := set identity | identity in current && !current[identity].deleted;
      var remaining := live;
      while remaining != {}
        invariant remaining <= live
        invariant items == map identity | identity in live && identity !in remaining :: CachedItem(current[identity].content, false)
        decreases remaining
      {
        var identity :| identity in remaining;
        items := items[identity := CachedItem(current[identity].content, current[identity].deleted)];
        remaining := remaining - {identity};
      }
      snapshot := CacheSnapshot(version, items);
    }

    /** The load of a client that reads MySQL itself: the same two queries in the same order,
        every item stamped with the time of the scan. */
    method LoadClientSnapshot(meanwhile: seq<Transaction>, at: Time) returns (snapshot: Snapshot)
      modifies this`current, this`checkpoint, this`repoVersion
      ensures snapshot.repoVersion == old(repoVersion)
      ensures current == ApplyAll(hash, old(current), meanwhile)
      ensures ClientView(snapshot.items) == LiveView(current)
      ensures forall identity :: identity in snapshot.items ==> snapshot.items[identity].loadedAt == at
    {
      var version := repoVersion;
      LetOthersCommit(meanwhile);
      var items: ConfigItems := map[];
      var live := set identity | identity in current && !current[identity].deleted;
      var remaining := live;
      while remaining != {}
        invariant remaining <= live
        invariant items == map identity | identity in live && identity !in remaining :: ConfigItem(current[identity].content, false, at)
        decreases remaining
      {
        var identity :| identity in remaining;
        items := items[identity := ConfigItem(current[identity].content, current[identity].deleted, at)];
        remaining := remaining - {identity};
      }
      snapshot := Snapshot(version, items);
    }
  }
}
