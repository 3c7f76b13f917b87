/** The CURRENT table, the two lists the syncer computes from it and a git tree
    (server/syncer.go), and the transaction that applies them (server/store.go). The content
    hash is a parameter; where its collisions matter the statements say which. */
module ConfigTable {
  import opened ConfigTypes
  import opened PathCodec

  type Hash = string -> string

  datatype Row = Row(path: string, content: string, contentHash: string, deleted: bool, commit: string)

  type Table = map<ConfigIdentity, Row>

  /** A row as ListCurrent reads it, without its content. */
  datatype CurrentRecord = CurrentRecord(path: string, contentHash: string, deleted: bool, commit: string)

  type Records = map<ConfigIdentity, CurrentRecord>

  datatype SyncConfigItem = SyncConfigItem(
    identity: ConfigIdentity, path: string, content: string, contentHash: string, commit: string)

  datatype DeletedConfigItem = DeletedConfigItem(identity: ConfigIdentity, path: string, commit: string)

  function RecordOf(row: Row): CurrentRecord {
    CurrentRecord(row.path, row.contentHash, row.deleted, row.commit)
  }

  function RecordsOf(table: Table): Records {
    map identity | identity in table :: RecordOf(table[identity])
  }

  function LiveView(table: Table): View {
    map identity | identity in table && !table[identity].deleted :: table[identity].content
  }

  // ----- the difference between a tree and the table -----

  /** A missing identity reads as the zero record. */
  function Lookup(current: Records, identity: ConfigIdentity): CurrentRecord {
    if identity in current then current[identity] else CurrentRecord("", "", false, "")
  }

  predicate NeedsUpsert(hash: Hash, tree: Tree, current: Records, identity: ConfigIdentity) {
    && identity in tree
    && var record := Lookup(current, identity);
       !(!record.deleted && record.contentHash == hash(tree[identity].content))
  }

  predicate NeedsDelete(root: string, tree: Tree, current: Records, identity: ConfigIdentity) {
    && identity in current
    && !current[identity].deleted
    && IdentityFromGitHubPath(root, current[identity].path).Some?
    && identity !in tree
  }

  function UpsertOf(hash: Hash, tree: Tree, commit: string, identity: ConfigIdentity): SyncConfigItem
    requires identity in tree
  {
    var file := tree[identity];
    SyncConfigItem(identity, file.path, file.content, hash(file.content), commit)
  }

  function DeleteOf(current: Records, commit: string, identity: ConfigIdentity): DeletedConfigItem
    requires identity in current
  {
    DeletedConfigItem(identity, current[identity].path, commit)
  }

  /** The list holds one item for every identity that needs it, in any order. */
  ghost predicate IsUpsertList(hash: Hash, tree: Tree, current: Records, commit: string, upserts: seq<SyncConfigItem>) {
    && (forall i, j :: 0 <= i < j < |upserts| ==> upserts[i].identity != upserts[j].identity)
    && (forall i :: 0 <= i < |upserts| ==>
         && NeedsUpsert(hash, tree, current, upserts[i].identity)
         && upserts[i] == UpsertOf(hash, tree, commit, upserts[i].identity))
    && (forall identity :: NeedsUpsert(hash, tree, current, identity) ==> InUpserts(upserts, identity))
  }

  ghost predicate IsDeleteList(root: string, tree: Tree, current: Records, commit: string, deletes: seq<DeletedConfigItem>) {
    && (forall i, j :: 0 <= i < j < |deletes| ==> deletes[i].identity != deletes[j].identity)
    && (forall i :: 0 <= i < |deletes| ==>
         && NeedsDelete(root, tree, current, deletes[i].identity)
         && deletes[i] == DeleteOf(current, commit, deletes[i].identity))
    && (forall identity :: NeedsDelete(root, tree, current, identity) ==> InDeletes(deletes, identity))
  }

  ghost predicate InUpserts(upserts: seq<SyncConfigItem>, identity: ConfigIdentity) {
    exists i :: 0 <= i < |upserts| && upserts[i].identity == identity
  }

  ghost predicate InDeletes(deletes: seq<DeletedConfigItem>, identity: ConfigIdentity) {
    exists i :: 0 <= i < |deletes| && deletes[i].identity == identity
  }

  /** Both lists computed from one reading of the table. */
  ghost predicate IsDiff(
    hash: Hash, root: string, tree: Tree, current: Records, commit: string,
    upserts: seq<SyncConfigItem>, deletes: seq<DeletedConfigItem>)
  {
    && IsUpsertList(hash, tree, current, commit, upserts)
    && IsDeleteList(root, tree, current, commit, deletes)
  }

  // ----- applying it -----

  /** INSERT ... ON DUPLICATE KEY UPDATE on the (NAMESPACE, CONFIG_KEY) key. */
  function WriteConfig(table: Table, item: SyncConfigItem, deleted: bool): Table {
    table[item.identity := Row(item.path, item.content, item.contentHash, deleted, item.commit)]
  }

  /** The tombstone's item: no content, the hash of nothing. */
  function Tombstone(hash: Hash, item: DeletedConfigItem, commit: string): SyncConfigItem {
    SyncConfigItem(item.identity, item.path, "", hash(""), commit)
  }

  function ApplyUpserts(table: Table, upserts: seq<SyncConfigItem>, commit: string): Table {
    if upserts == [] then table
    else
      var last := upserts[|upserts| - 1];
      WriteConfig(ApplyUpserts(table, upserts[..|upserts| - 1], commit), last.(commit := commit), false)
  }

  function ApplyDeletes(hash: Hash, table: Table, deletes: seq<DeletedConfigItem>, commit: string): Table {
    if deletes == [] then table
    else
      var last := deletes[|deletes| - 1];
      WriteConfig(ApplyDeletes(hash, table, deletes[..|deletes| - 1], commit), Tombstone(hash, last, commit), true)
  }

  /** What the transaction does to the table. */
  function ApplyLists(
    hash: Hash, table: Table, upserts: seq<SyncConfigItem>, deletes: seq<DeletedConfigItem>, commit: string): Table
  {
    ApplyDeletes(hash, ApplyUpserts(table, upserts, commit), deletes, commit)
  }

  lemma {:induction false} UpsertsPointwise(table: Table, upserts: seq<SyncConfigItem>, commit: string, identity: ConfigIdentity)
    requires forall i, j :: 0 <= i < j < |upserts| ==> upserts[i].identity != upserts[j].identity
    ensures !InUpserts(upserts, identity) ==>
      && (identity in ApplyUpserts(table, upserts, commit) <==> identity in table)
      && (identity in table ==> ApplyUpserts(table, upserts, commit)[identity] == table[identity])
    ensures forall i :: 0 <= i < |upserts| && upserts[i].identity == identity ==>
      && identity in ApplyUpserts(table, upserts, commit)
      && ApplyUpserts(table, upserts, commit)[identity]
         == Row(upserts[i].path, upserts[i].content, upserts[i].contentHash, false, commit)
  {
    if upserts != [] {
      var before := upserts[..|upserts| - 1];
      UpsertsPointwise(table, before, commit, identity);
      if InUpserts(before, identity) {
        var i :| 0 <= i < |before| && before[i].identity == identity;
        assert upserts[i] == before[i];
      } else if !InUpserts(upserts, identity) {
        assert upserts[|upserts| - 1].identity != identity;
      }
    }
  }

  lemma {:induction false} DeletesPointwise(
    hash: Hash, table: Table, deletes: seq<DeletedConfigItem>, commit: string, identity: ConfigIdentity)
    requires forall i, j :: 0 <= i < j < |deletes| ==> deletes[i].identity != deletes[j].identity
    ensures !InDeletes(deletes, identity) ==>
      && (identity in ApplyDeletes(hash, table, deletes, commit) <==> identity in table)
      && (identity in table ==> ApplyDeletes(hash, table, deletes, commit)[identity] == table[identity])
    ensures forall i :: 0 <= i < |deletes| && deletes[i].identity == identity ==>
      && identity in ApplyDeletes(hash, table, deletes, commit)
      && ApplyDeletes(hash, table, deletes, commit)[identity] == Row(deletes[i].path, "", hash(""), true, commit)
  {
    if deletes != [] {
      var before := deletes[..|deletes| - 1];
      DeletesPointwise(hash, table, before, commit, identity);
      if InDeletes(before, identity) {
        var i :| 0 <= i < |before| && before[i].identity == identity;
        assert deletes[i] == before[i];
      } else if !InDeletes(deletes, identity) {
        assert deletes[|deletes| - 1].identity != identity;
      }
    }
  }

  // ----- exactness -----

  /** The row of an identity after a sync with lists computed from `read` and applied to
      `table`, if any, whatever the order of the lists. */
  function SyncedRow(
    hash: Hash, root: string, tree: Tree, read: Records, table: Table, commit: string, identity: ConfigIdentity): Option<Row>
  {
    if NeedsUpsert(hash, tree, read, identity) then
      Some(Row(tree[identity].path, tree[identity].content, hash(tree[identity].content), false, commit))
    else if NeedsDelete(root, tree, read, identity) then
      Some(Row(read[identity].path, "", hash(""), true, commit))
    else RowIn(table, identity)
  }

  function RowIn(table: Table, identity: ConfigIdentity): Option<Row> {
    if identity in table then Some(table[identity]) else None
  }

  /** Applying a difference decides every row, independently of the order in which the maps
      were iterated; the two lists never share an identity. */
  lemma ApplyDiffPointwise(
    hash: Hash, root: string, tree: Tree, read: Records, table: Table, commit: string,
    upserts: seq<SyncConfigItem>, deletes: seq<DeletedConfigItem>, identity: ConfigIdentity)
    requires IsDiff(hash, root, tree, read, commit, upserts, deletes)
    ensures RowIn(ApplyLists(hash, table, upserts, deletes, commit), identity)
         == SyncedRow(hash, root, tree, read, table, commit, identity)
    ensures InUpserts(upserts, identity) <==> NeedsUpsert(hash, tree, read, identity)
    ensures InDeletes(deletes, identity) <==> NeedsDelete(root, tree, read, identity)
    ensures !(InUpserts(upserts, identity) && InDeletes(deletes, identity))
  {
    UpsertsPointwise(table, upserts, commit, identity);
    DeletesPointwise(hash, ApplyUpserts(table, upserts, commit), deletes, commit, identity);
    if NeedsUpsert(hash, tree, read, identity) {
      assert InUpserts(upserts, identity);
    }
    if NeedsDelete(root, tree, read, identity) {
      assert InDeletes(deletes, identity);
    }
  }

  /** The hash tells the tree's content apart from what the identity's row holds, and from
      the empty hash of a missing row. */
  ghost predicate HashTells(hash: Hash, tree: Tree, table: Table) {
    forall identity :: identity in tree ==> HashTellsAt(hash, tree, table, identity)
  }

  predicate HashTellsAt(hash: Hash, tree: Tree, table: Table, identity: ConfigIdentity)
    requires identity in tree
  {
    var file := tree[identity];
    if identity !in table then hash(file.content) != ""
    else
      var row := table[identity];
      !row.deleted && row.contentHash == hash(file.content) ==> row.content == file.content
  }

  /** Every live row that the tree no longer has lies under the root. */
  ghost predicate StaleRowsUnderRoot(root: string, tree: Tree, table: Table) {
    forall identity :: identity in table && !table[identity].deleted && identity !in tree ==>
      IdentityFromGitHubPath(root, table[identity].path).Some?
  }

  /** The sync makes the live view equal to the tree exactly when the hash confuses nothing
      and no live row outside the root is in the way. */
  lemma SyncExactlyWhen(
    hash: Hash, root: string, tree: Tree, table: Table, commit: string,
    upserts: seq<SyncConfigItem>, deletes: seq<DeletedConfigItem>)
    requires IsDiff(hash, root, tree, RecordsOf(table), commit, upserts, deletes)
    ensures LiveView(ApplyLists(hash, table, upserts, deletes, commit)) == ContentView(tree)
       <==> HashTells(hash, tree, table) && StaleRowsUnderRoot(root, tree, table)
  {
    var after := ApplyLists(hash, table, upserts, deletes, commit);
    forall identity
      ensures RowIn(after, identity) == SyncedRow(hash, root, tree, RecordsOf(table), table, commit, identity)
    {
      ApplyDiffPointwise(hash, root, tree, RecordsOf(table), table, commit, upserts, deletes, identity);
    }
    if HashTells(hash, tree, table) && StaleRowsUnderRoot(root, tree, table) {
      SyncedViewIsTree(hash, root, tree, table, commit, after);
    }
    if LiveView(after) == ContentView(tree) {
      TreeViewNeedsTelling(hash, root, tree, table, commit, after);
    }
  }

  lemma SyncedViewIsTree(hash: Hash, root: string, tree: Tree, table: Table, commit: string, after: Table)
    requires forall identity :: RowIn(after, identity) == SyncedRow(hash, root, tree, RecordsOf(table), table, commit, identity)
    requires HashTells(hash, tree, table) && StaleRowsUnderRoot(root, tree, table)
    ensures LiveView(after) == ContentView(tree)
  {
    forall identity
      ensures identity in LiveView(after) <==> identity in ContentView(tree)
      ensures identity in tree ==> identity in LiveView(after) && LiveView(after)[identity] == tree[identity].content
    {
      assert RowIn(after, identity) == SyncedRow(hash, root, tree, RecordsOf(table), table, commit, identity);
      if identity in tree { assert HashTellsAt(hash, tree, table, identity); }
    }
  }

  lemma TreeViewNeedsTelling(hash: Hash, root: string, tree: Tree, table: Table, commit: string, after: Table)
    requires forall identity :: RowIn(after, identity) == SyncedRow(hash, root, tree, RecordsOf(table), table, commit, identity)
    requires LiveView(after) == ContentView(tree)
    ensures HashTells(hash, tree, table) && StaleRowsUnderRoot(root, tree, table)
  {
    forall identity | identity in tree ensures HashTellsAt(hash, tree, table, identity) {
      assert RowIn(after, identity) == SyncedRow(hash, root, tree, RecordsOf(table), table, commit, identity);
      assert identity in ContentView(tree) && identity in LiveView(after);
      assert LiveView(after)[identity] == ContentView(tree)[identity];
    }
    forall identity | identity in table && !table[identity].deleted && identity !in tree
      ensures IdentityFromGitHubPath(root, table[identity].path).Some?
    {
      assert RowIn(after, identity) == SyncedRow(hash, root, tree, RecordsOf(table), table, commit, identity);
      assert identity !in ContentView(tree) && identity !in LiveView(after);
    }
  }

  // ----- the invariant of a synced table -----

  /** Live rows map to their own identity under the root. */
  ghost predicate PathsDecode(root: string, table: Table) {
    forall identity :: identity in table && !table[identity].deleted ==>
      IdentityFromGitHubPath(root, table[identity].path) == Some(identity)
  }

  /** Every row carries the hash of its content. */
  ghost predicate HashesMatch(hash: Hash, table: Table) {
    forall identity :: identity in table ==> table[identity].contentHash == hash(table[identity].content)
  }

  /** The sync keeps both invariants. */
  lemma SyncKeepsInvariants(
    hash: Hash, root: string, tree: Tree, table: Table, commit: string,
    upserts: seq<SyncConfigItem>, deletes: seq<DeletedConfigItem>)
    requires IsDiff(hash, root, tree, RecordsOf(table), commit, upserts, deletes)
    requires UnderRoot(root, tree)
    requires PathsDecode(root, table) && HashesMatch(hash, table)
    ensures PathsDecode(root, ApplyLists(hash, table, upserts, deletes, commit))
    ensures HashesMatch(hash, ApplyLists(hash, table, upserts, deletes, commit))
  {
    var after := ApplyLists(hash, table, upserts, deletes, commit);
    forall identity | identity in after
      ensures after[identity].contentHash == hash(after[identity].content)
      ensures !after[identity].deleted ==> IdentityFromGitHubPath(root, after[identity].path) == Some(identity)
    {
      ApplyDiffPointwise(hash, root, tree, RecordsOf(table), table, commit, upserts, deletes, identity);
    }
  }

  // ----- minimality and fixpoint -----

  function LiveContent(view: View, identity: ConfigIdentity): Option<string> {
    if identity in view then Some(view[identity]) else None
  }

  /** On a table that keeps the invariants, with a hash that tells the contents apart, the
      difference touches an identity exactly when its live content has to change. */
  lemma DiffIsMinimal(hash: Hash, root: string, tree: Tree, table: Table, identity: ConfigIdentity)
    requires PathsDecode(root, table) && HashesMatch(hash, table) && HashTells(hash, tree, table)
    ensures NeedsUpsert(hash, tree, RecordsOf(table), identity) || NeedsDelete(root, tree, RecordsOf(table), identity)
       <==> LiveContent(LiveView(table), identity) != LiveContent(ContentView(tree), identity)
  {
    if identity in tree {
      assert HashTellsAt(hash, tree, table, identity);
    }
    if identity in table {
      assert RecordsOf(table)[identity] == RecordOf(table[identity]);
    }
  }

  /** Without the path invariant: a row outside the root is touched exactly when the tree has
      its identity with a different live hash. */
  lemma OutsideRootTouchedExactly(hash: Hash, root: string, tree: Tree, table: Table, identity: ConfigIdentity)
    requires identity in table
    ensures IdentityFromGitHubPath(root, table[identity].path).None? ==>
      (NeedsUpsert(hash, tree, RecordsOf(table), identity) || NeedsDelete(root, tree, RecordsOf(table), identity)
       <==> identity in tree && (table[identity].deleted || table[identity].contentHash != hash(tree[identity].content)))
  {
    assert RecordsOf(table)[identity] == RecordOf(table[identity]);
  }

  /** A second difference against the synced table is empty. */
  lemma DiffFixpoint(
    hash: Hash, root: string, tree: Tree, table: Table, commit: string,
    upserts: seq<SyncConfigItem>, deletes: seq<DeletedConfigItem>,
    upserts2: seq<SyncConfigItem>, deletes2: seq<DeletedConfigItem>)
    requires IsDiff(hash, root, tree, RecordsOf(table), commit, upserts, deletes)
    requires var after := ApplyLists(hash, table, upserts, deletes, commit);
      IsDiff(hash, root, tree, RecordsOf(after), commit, upserts2, deletes2)
    ensures upserts2 == [] && deletes2 == []
  {
    var after := ApplyLists(hash, table, upserts, deletes, commit);
    if upserts2 != [] {
      ApplyDiffPointwise(hash, root, tree, RecordsOf(table), table, commit, upserts, deletes, upserts2[0].identity);
    }
    if deletes2 != [] {
      ApplyDiffPointwise(hash, root, tree, RecordsOf(table), table, commit, upserts, deletes, deletes2[0].identity);
    }
  }

  // ----- lists that were computed from an older reading -----

  predicate Agrees(table: Table, tree: Tree, identity: ConfigIdentity) {
    LiveContent(LiveView(table), identity) == LiveContent(ContentView(tree), identity)
  }

  /** The transaction does not look at what it was computed from: on whatever table it finds,
      its result is the tree exactly when that table already agrees with the tree on every
      identity the two lists do not touch. */
  lemma OldListsExactlyWhen(
    hash: Hash, root: string, tree: Tree, read: Records, table: Table, commit: string,
    upserts: seq<SyncConfigItem>, deletes: seq<DeletedConfigItem>)
    requires IsDiff(hash, root, tree, read, commit, upserts, deletes)
    ensures LiveView(ApplyLists(hash, table, upserts, deletes, commit)) == ContentView(tree)
       <==> forall identity :: !InUpserts(upserts, identity) && !InDeletes(deletes, identity) ==> Agrees(table, tree, identity)
  {
    var after := ApplyLists(hash, table, upserts, deletes, commit);
    forall identity
      ensures InUpserts(upserts, identity) || InDeletes(deletes, identity) ==> Agrees(after, tree, identity)
      ensures !InUpserts(upserts, identity) && !InDeletes(deletes, identity) ==>
        (Agrees(after, tree, identity) <==> Agrees(table, tree, identity))
    {
      UpsertsPointwise(table, upserts, commit, identity);
      DeletesPointwise(hash, ApplyUpserts(table, upserts, commit), deletes, commit, identity);
    }
    if forall identity :: Agrees(after, tree, identity) {
      forall identity
        ensures identity in LiveView(after) <==> identity in ContentView(tree)
        ensures identity in ContentView(tree) ==> LiveView(after)[identity] == ContentView(tree)[identity]
      {
        assert Agrees(after, tree, identity);
      }
    }
  }
}
