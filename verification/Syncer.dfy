/** One instance's synchronization (server/syncer.go): the renewal loop, the computation of
    the two lists, and the sequence of store effects of SyncOnce. */
module Syncer {
  import opened ConfigTypes
  import opened PathCodec
  import opened ConfigTable
  import opened Lease
  import opened MySqlStore

  /** A tick of the renewal ticker, and the statements of other instances on the lock row since
      the one before. */
  datatype Tick = Tick(at: Time, fails: bool, before: seq<LeaseEvent>)

  function Met(row: LeaseRow, tick: Tick): LeaseRow {
    RowAt(row, tick.before, |tick.before|)
  }

  /** The row after the renewal loop: it runs until an error, an unreported renewal or the
      last tick before it is stopped. */
  function Renewed(row: LeaseRow, ticks: seq<Tick>, owner: string, ttl: Time): LeaseRow
    decreases |ticks|
  {
    if ticks == [] then row
    else
      var met := Met(row, ticks[0]);
      var e := LeaseEvent(ticks[0].at, Renew(owner, ttl));
      if !ticks[0].fails && RowAffected(met, e) then Renewed(Execute(met, e), ticks[1..], owner, ttl) else met
  }

  /** Statements of others, their acquires not after the instant. */
  ghost predicate OthersUntil(events: seq<LeaseEvent>, owner: string, until: Time) {
    forall k :: 0 <= k < |events| ==>
      events[k].op.owner != owner && (events[k].op.Acquire? ==> events[k].at <= until)
  }

  /** Every tick reaches the database at least a second after the one before, and others try to
      take the lease at most ttl after it. */
  ghost predicate SlowTicks(ticks: seq<Tick>, owner: string, ttl: Time, since: Time)
    decreases |ticks|
  {
    ticks == [] ||
    (&& !ticks[0].fails && ticks[0].at >= since + SECOND
     && OthersUntil(ticks[0].before, owner, since + ttl)
     && SlowTicks(ticks[1..], owner, ttl, ticks[0].at))
  }

  lemma {:induction false} OthersLeaveLease(
    row: LeaseRow, events: seq<LeaseEvent>, owner: string, ttl: Time, since: Time, k: nat)
    requires row == LeaseRow(owner, DbNow(since) + LeaseSeconds(ttl)) && k <= |events|
    requires OthersUntil(events, owner, since + ttl)
    ensures RowAt(row, events, k) == row
  {
    if k > 0 {
      OthersLeaveLease(row, events, owner, ttl, since, k - 1);
      LeaseCoversTtl(ttl);
      assert events[k - 1].op.owner != owner;
    }
  }

  /** Such ticks renew the lease one by one, so the loop goes on to the last of them and the
      lease counts from there. */
  lemma {:induction false} SlowTicksKeepRenewing(row: LeaseRow, ticks: seq<Tick>, owner: string, ttl: Time, since: Time)
    requires row == LeaseRow(owner, DbNow(since) + LeaseSeconds(ttl)) && SlowTicks(ticks, owner, ttl, since)
    ensures Renewed(row, ticks, owner, ttl)
         == LeaseRow(owner, DbNow(if ticks == [] then since else ticks[|ticks| - 1].at) + LeaseSeconds(ttl))
    decreases |ticks|
  {
    if ticks != [] {
      OthersLeaveLease(row, ticks[0].before, owner, ttl, since, |ticks[0].before|);
      NextSecond(since, ticks[0].at);
      assert RowAffected(row, LeaseEvent(ticks[0].at, Renew(owner, ttl)));
      SlowTicksKeepRenewing(Execute(row, LeaseEvent(ticks[0].at, Renew(owner, ttl))), ticks[1..], owner, ttl, ticks[0].at);
    }
  }

  /** Only an acquire changes who owns the row. */
  lemma {:induction false} OwnerStays(row: LeaseRow, events: seq<LeaseEvent>, k: nat)
    requires k <= |events| && forall i :: 0 <= i < |events| ==> !events[i].op.Acquire?
    ensures RowAt(row, events, k).owner == row.owner
  {
    if k > 0 {
      OwnerStays(row, events, k - 1);
    }
  }

  ghost predicate NobodyAcquires(tick: Tick) {
    forall i :: 0 <= i < |tick.before| ==> !tick.before[i].op.Acquire?
  }

  /** No renewal does: unless another instance acquires in between, the owner stays. */
  lemma {:induction false} RenewingKeepsOwner(row: LeaseRow, ticks: seq<Tick>, owner: string, ttl: Time)
    requires forall t :: 0 <= t < |ticks| ==> NobodyAcquires(ticks[t])
    ensures Renewed(row, ticks, owner, ttl).owner == row.owner
    decreases |ticks|
  {
    if ticks != [] {
      assert NobodyAcquires(ticks[0]);
      OwnerStays(row, ticks[0].before, |ticks[0].before|);
      var e := LeaseEvent(ticks[0].at, Renew(owner, ttl));
      RenewingKeepsOwner(Execute(Met(row, ticks[0]), e), ticks[1..], owner, ttl);
    }
  }

  /** The loop as far as these ticks: each one answered, and reported. */
  ghost predicate AllReported(row: LeaseRow, ticks: seq<Tick>, owner: string, ttl: Time)
    decreases |ticks|
  {
    ticks == [] ||
    (var met := Met(row, ticks[0]);
     var e := LeaseEvent(ticks[0].at, Renew(owner, ttl));
     !ticks[0].fails && RowAffected(met, e) && AllReported(Execute(met, e), ticks[1..], owner, ttl))
  }

  /** While every tick is reported the loop goes on from where they leave the row; after the
      first one that fails or is not reported there is no further renewal, whatever ticks
      follow. */
  lemma {:induction false} RenewalStopsExactly(row: LeaseRow, ticks: seq<Tick>, more: seq<Tick>, owner: string, ttl: Time)
    ensures Renewed(row, ticks + more, owner, ttl)
         == if AllReported(row, ticks, owner, ttl) then Renewed(Renewed(row, ticks, owner, ttl), more, owner, ttl)
            else Renewed(row, ticks, owner, ttl)
    decreases |ticks|
  {
    if ticks == [] {
      assert ticks + more == more;
    } else {
      assert (ticks + more)[1..] == ticks[1..] + more;
      var met := Met(row, ticks[0]);
      var e := LeaseEvent(ticks[0].at, Renew(owner, ttl));
      RenewalStopsExactly(Execute(met, e), ticks[1..], more, owner, ttl);
    }
  }

  /** One tick: the owner's row gets a new lease from it, any other row is left alone and ends
      the loop. */
  lemma OneTick(row: LeaseRow, tick: Tick, owner: string, ttl: Time)
    ensures Renewed(row, [tick], owner, ttl)
         == if !tick.fails && Met(row, tick).owner == owner then LeaseRow(owner, DbNow(tick.at) + LeaseSeconds(ttl))
            else Met(row, tick)
    ensures AllReported(row, [tick], owner, ttl)
       <==> !tick.fails && Met(row, tick).owner == owner && Met(row, tick).expireAt != DbNow(tick.at) + LeaseSeconds(ttl)
  {
    assert [tick][1..] == [];
  }

  /** What other instances do during one SyncOnce: the transactions they commit before its
      checkpoint is read, then before the table is listed, then before its transaction; and
      their statements on the lock row after its last renewal. */
  datatype Others = Others(
    beforeCheckpoint: seq<Transaction>, beforeList: seq<Transaction>, beforeApply: seq<Transaction>,
    onLock: seq<LeaseEvent>)

  /** What the outside answers during one SyncOnce: None is an error. `tree` is what the
      download of the head commit returns, `ticks` the renewals made before it ends. */
  datatype SyncIO = SyncIO(
    acquireAt: Time, acquireFails: bool, ticks: seq<Tick>, checkpointFails: bool,
    head: Option<string>, tree: Option<Tree>, listFails: bool, faultAt: Option<nat>,
    releaseAt: Time, releaseFails: bool, others: Others)
  {
    predicate AllAnswer() {
      !checkpointFails && head.Some? && tree.Some? && !listFails && faultAt.None?
    }
  }

  /** The tables: at the checkpoint's read, at the listing and at the transaction. */
  datatype Tables = Tables(table: Table, checkpoint: string, version: string)

  function After(hash: Hash, s: Tables, transactions: seq<Transaction>): Tables {
    Tables(ApplyAll(hash, s.table, transactions), VersionAfter(s.checkpoint, transactions), VersionAfter(s.version, transactions))
  }

  function AtCheckpoint(hash: Hash, s: Tables, others: Others): Tables {
    After(hash, s, others.beforeCheckpoint)
  }

  function AtList(hash: Hash, s: Tables, others: Others): Tables {
    After(hash, AtCheckpoint(hash, s, others), others.beforeList)
  }

  function AtApply(hash: Hash, s: Tables, others: Others): Tables {
    After(hash, AtList(hash, s, others), others.beforeApply)
  }

  /** The table met by the transaction agrees with the tree on what its lists do not touch. */
  ghost predicate AgreesUntouched(hash: Hash, root: string, tree: Tree, read: Records, table: Table) {
    forall identity :: !NeedsUpsert(hash, tree, read, identity) && !NeedsDelete(root, tree, read, identity) ==>
      Agrees(table, tree, identity)
  }

  /** OldListsExactlyWhen, in terms of what was read. */
  lemma AppliedIsTreeExactly(
    hash: Hash, root: string, tree: Tree, read: Records, table: Table, commit: string,
    upserts: seq<SyncConfigItem>, deletes: seq<DeletedConfigItem>)
    requires IsDiff(hash, root, tree, read, commit, upserts, deletes)
    ensures LiveView(ApplyLists(hash, table, upserts, deletes, commit)) == ContentView(tree)
       <==> AgreesUntouched(hash, root, tree, read, table)
  {
    OldListsExactlyWhen(hash, root, tree, read, table, commit, upserts, deletes);
    forall identity
      ensures InUpserts(upserts, identity) <==> NeedsUpsert(hash, tree, read, identity)
      ensures InDeletes(deletes, identity) <==> NeedsDelete(root, tree, read, identity)
    {
      ApplyDiffPointwise(hash, root, tree, read, table, commit, upserts, deletes, identity);
    }
  }

  datatype SyncResult = NotLeader | Failed | UpToDate | Applied

  class Syncer {
    const root: string
    const instance: string
    const ttl: Time
    const store: MySQLStore

    constructor (root: string, instance: string, ttl: Time, store: MySQLStore)
      ensures this.root == root && this.instance == instance && this.ttl == ttl && this.store == store
    {
      this.root, this.instance, this.ttl, this.store := root, instance, ttl, store;
    }

    method RenewLoop(ticks: seq<Tick>)
      modifies store`lock
      ensures store.lock == Renewed(old(store.lock), ticks, instance, ttl)
    {
      var k := 0;
      while k < |ticks|
        invariant 0 <= k <= |ticks|
        invariant Renewed(old(store.lock), ticks, instance, ttl) == Renewed(store.lock, ticks[k..], instance, ttl)
      {
        store.LetOthersUseLock(ticks[k].before);
        var ok := store.RenewLock(ticks[k].at, instance, ttl, ticks[k].fails);
        if ok != Some(true) {
          return;
        }
        assert ticks[k..][1..] == ticks[k + 1..];
        k := k + 1;
      }
    }

    /** The loop over the fetched files. */
    method CollectUpserts(tree: Tree, current: Records, commit: string) returns (upserts: seq<SyncConfigItem>)
      ensures IsUpsertList(store.hash, tree, current, commit, upserts)
    {
      upserts := [];
      var remaining := tree.Keys;
      while remaining != {}
        invariant remaining <= tree.Keys
        invariant forall i, j :: 0 <= i < j < |upserts| ==> upserts[i].identity != upserts[j].identity
        invariant forall i :: 0 <= i < |upserts| ==>
          && NeedsUpsert(store.hash, tree, current, upserts[i].identity)
          && upserts[i].identity !in remaining
          && upserts[i] == UpsertOf(store.hash, tree, commit, upserts[i].identity)
        invariant forall identity :: NeedsUpsert(store.hash, tree, current, identity) && identity !in remaining ==>
          InUpserts(upserts, identity)
        decreases remaining
      {
        var identity :| identity in remaining;
        remaining := remaining - {identity};
        var contentHash := store.hash(tree[identity].content);
        var record := Lookup(current, identity);
        if !record.deleted && record.contentHash == contentHash {
          continue;
        }
        ghost var before := upserts;
        upserts := upserts + [SyncConfigItem(identity, tree[identity].path, tree[identity].content, contentHash, commit)];
        forall other | InUpserts(before, other) ensures InUpserts(upserts, other) {
          var i :| 0 <= i < |before| && before[i].identity == other;
          assert upserts[i].identity == other;
        }
        assert upserts[|before|].identity == identity;
      }
    }

    /** The loop over the table's rows. */
    method CollectDeleted(tree: Tree, current: Records, commit: string) returns (deletes: seq<DeletedConfigItem>)
      ensures IsDeleteList(root, tree, current, commit, deletes)
    {
      deletes := [];
      var remaining := current.Keys;
      while remaining != {}
        invariant remaining <= current.Keys
        invariant forall i, j :: 0 <= i < j < |deletes| ==> deletes[i].identity != deletes[j].identity
        invariant forall i :: 0 <= i < |deletes| ==>
          && NeedsDelete(root, tree, current, deletes[i].identity)
          && deletes[i].identity !in remaining
          && deletes[i] == DeleteOf(current, commit, deletes[i].identity)
        invariant forall identity :: NeedsDelete(root, tree, current, identity) && identity !in remaining ==>
          InDeletes(deletes, identity)
        decreases remaining
      {
        var identity :| identity in remaining;
        remaining := remaining - {identity};
        var record := current[identity];
        if record.deleted {
          continue;
        }
        if IdentityFromGitHubPath(root, record.path).None? {
          continue;
        }
        if identity in tree {
          continue;
        }
        ghost var before := deletes;
        deletes := deletes + [DeletedConfigItem(identity, record.path, commit)];
        forall other | InDeletes(before, other) ensures InDeletes(deletes, other) {
          var i :| 0 <= i < |before| && before[i].identity == other;
          assert deletes[i].identity == other;
        }
        assert deletes[|before|].identity == identity;
      }
    }

    ghost function Now(): Tables
      reads this, store
    {
      Tables(store.current, store.checkpoint, store.repoVersion)
    }

    /** The steps between acquiring and releasing, with whatever other instances commit in
        between. The renewal goroutine touches only the lock row, which nothing here reads,
        so its ticks are run at its start. */
    method SyncHoldingLock(io: SyncIO) returns (r: SyncResult)
      modifies store`lock, store`current, store`checkpoint, store`repoVersion
      ensures !r.NotLeader?
      ensures store.lock == Renewed(old(store.lock), io.ticks, instance, ttl)
      ensures r.UpToDate? <==> !io.checkpointFails && io.head == Some(AtCheckpoint(store.hash, old(Now()), io.others).checkpoint)
      ensures !r.Applied? ==>
        || Now() == AtCheckpoint(store.hash, old(Now()), io.others)
        || (!r.UpToDate? && Now() == AtList(store.hash, old(Now()), io.others))
        || (!r.UpToDate? && Now() == AtApply(store.hash, old(Now()), io.others))
      ensures io.AllAnswer() && !r.UpToDate? ==> r.Applied?
      ensures r.Applied? ==>
        && !io.checkpointFails && io.head.Some? && io.tree.Some? && store.checkpoint == store.repoVersion == io.head.value
        && var read := RecordsOf(AtList(store.hash, old(Now()), io.others).table);
           var met := AtApply(store.hash, old(Now()), io.others).table;
           && (forall identity :: RowIn(store.current, identity)
                 == SyncedRow(store.hash, root, io.tree.value, read, met, io.head.value, identity))
           && (LiveView(store.current) == ContentView(io.tree.value)
               <==> AgreesUntouched(store.hash, root, io.tree.value, read, met))
    {
      RenewLoop(io.ticks);
      store.LetOthersCommit(io.others.beforeCheckpoint);
      if io.checkpointFails {
        return Failed;
      }
      var checkpoint := store.checkpoint;
      if io.head.None? {
        return Failed;
      }
      var commit := io.head.value;
      if checkpoint == commit {
        return UpToDate;
      }
      if io.tree.None? {
        return Failed;
      }
      store.LetOthersCommit(io.others.beforeList);
      if io.listFails {
        return Failed;
      }
      var tree := io.tree.value;
      var current := store.ListCurrent();
      var upserts := CollectUpserts(tree, current, commit);
      var deletes := CollectDeleted(tree, current, commit);
      store.LetOthersCommit(io.others.beforeApply);
      ghost var met := store.current;
      var ok := store.ApplyChanges(commit, upserts, deletes, io.faultAt);
      if !ok {
        return Failed;
      }
      forall identity
        ensures RowIn(store.current, identity) == SyncedRow(store.hash, root, tree, current, met, commit, identity)
      {
        ApplyDiffPointwise(store.hash, root, tree, current, met, commit, upserts, deletes, identity);
      }
      AppliedIsTreeExactly(store.hash, root, tree, current, met, commit, upserts, deletes);
      return Applied;
    }

    /** Without the lock nothing changes. With it, the lease is given back on every path, if it
        still is this instance's; and an applied sync publishes the head and leaves exactly its
        tree live if and only if the table it met agreed with the tree outside its lists: with
        nothing committed between listing and transaction, unless the hash confuses two
        contents or a live row outside the root is in the way. */
    method SyncOnce(io: SyncIO) returns (r: SyncResult)
      modifies store`lock, store`current, store`checkpoint, store`repoVersion
      ensures r.NotLeader? <==> io.acquireFails || !(old(store.lock).expireAt < DbNow(io.acquireAt))
      ensures r.NotLeader? ==> store.lock == old(store.lock) && Now() == old(Now())
      ensures !r.NotLeader? ==>
        var renewed := Renewed(LeaseRow(instance, DbNow(io.acquireAt) + LeaseSeconds(ttl)), io.ticks, instance, ttl);
        var left := RowAt(renewed, io.others.onLock, |io.others.onLock|);
        store.lock == if io.releaseFails then left else Execute(left, LeaseEvent(io.releaseAt, Release(instance)))
      ensures !r.NotLeader? && !io.releaseFails && store.lock.owner == instance ==>
        forall e: LeaseEvent :: e.op.Acquire? ==> (RowAffected(store.lock, e) <==> DbNow(e.at) > DbNow(io.releaseAt))
      ensures r.UpToDate? <==>
        !r.NotLeader? && !io.checkpointFails && io.head == Some(AtCheckpoint(store.hash, old(Now()), io.others).checkpoint)
      ensures !r.NotLeader? && !r.Applied? ==>
        || Now() == AtCheckpoint(store.hash, old(Now()), io.others)
        || (!r.UpToDate? && Now() == AtList(store.hash, old(Now()), io.others))
        || (!r.UpToDate? && Now() == AtApply(store.hash, old(Now()), io.others))
      ensures !r.NotLeader? && io.AllAnswer() && !r.UpToDate? ==> r.Applied?
      ensures r.Applied? ==>
        && io.head.Some? && io.tree.Some? && store.checkpoint == store.repoVersion == io.head.value
        && io.head.value != AtCheckpoint(store.hash, old(Now()), io.others).checkpoint
        && var read := AtList(store.hash, old(Now()), io.others).table;
           var met := AtApply(store.hash, old(Now()), io.others).table;
           && (LiveView(store.current) == ContentView(io.tree.value)
               <==> AgreesUntouched(store.hash, root, io.tree.value, RecordsOf(read), met))
           && (met == read ==>
                (LiveView(store.current) == ContentView(io.tree.value)
                 <==> HashTells(store.hash, io.tree.value, read) && StaleRowsUnderRoot(root, io.tree.value, read)))
    {
      var locked := store.TryAcquireLock(io.acquireAt, instance, ttl, io.acquireFails);
      if locked != Some(true) {
        return NotLeader;
      }
      r := SyncHoldingLock(io);
      if r.Applied? {
        UndisturbedExactly(io.tree.value, AtList(store.hash, old(Now()), io.others).table, io.head.value, store.current);
      }
      store.LetOthersUseLock(io.others.onLock);
      store.ReleaseLock(io.releaseAt, instance, io.releaseFails);
      forall e: LeaseEvent | e.op.Acquire? ensures RowAffected(store.lock, e) <==> Matches(store.lock, e) {
        AcquireReportsTaking(store.lock, e);
      }
    }

    lemma UndisturbedExactly(tree: Tree, read: Table, commit: string, after: Table)
      ensures (forall identity :: RowIn(after, identity)
                 == SyncedRow(store.hash, root, tree, RecordsOf(read), read, commit, identity))
          ==> (LiveView(after) == ContentView(tree) <==> HashTells(store.hash, tree, read) && StaleRowsUnderRoot(root, tree, read))
    {
      if forall identity :: RowIn(after, identity)
           == SyncedRow(store.hash, root, tree, RecordsOf(read), read, commit, identity) {
        if LiveView(after) == ContentView(tree) {
          TreeViewNeedsTelling(store.hash, root, tree, read, commit, after);
        }
        if HashTells(store.hash, tree, read) && StaleRowsUnderRoot(root, tree, read) {
          SyncedViewIsTree(store.hash, root, tree, read, commit, after);
        }
      }
    }
  }
}
