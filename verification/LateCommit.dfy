/** Why the table theorem asks for commits under the lease: the transaction of server/syncer.go does
    not look at the lock, and a late one leaves a table that is no commit's tree. */
module LateCommit {
  import opened ConfigTypes
  import opened PathCodec
  import opened ConfigTable
  import opened Lease
  import opened LeaderProtocol

  const X := ConfigIdentity("n", "x")
  const Y := ConfigIdentity("n", "y")
  const TREE_1: Tree := map[X := FileOf(X, "1")]
  const TREE_2: Tree := map[Y := FileOf(Y, "2")]

  function FileOf(identity: ConfigIdentity, content: string): FetchedConfig {
    FetchedConfig("r/n/" + identity.configKey, content)
  }

  function TreeOfCommit(commit: string): Tree {
    if commit == "c1" then TREE_1 else if commit == "c2" then TREE_2 else map[]
  }

  function Digest(content: string): string {
    "h" + content
  }

  function Second(owner: string): Time {
    SECOND
  }

  const ENV := Env("r", Digest, TreeOfCommit, Second)

  lemma PathIsClean(identity: ConfigIdentity)
    requires identity in {X, Y}
    ensures NormalizePath("r/n/" + identity.configKey) == "r/n/" + identity.configKey
    ensures NormalizePath("r") == "r"
  {
    CleanPathIsNormalized("r");
    var path := "r/n/" + identity.configKey;
    assert path[0] == 'r' && path[|path| - 1] == identity.configKey[0];
    CleanPathIsNormalized(path);
  }

  lemma PathIsJoined(identity: ConfigIdentity)
    requires identity in {X, Y}
    ensures JoinPath("r", identity) == "r/n/" + identity.configKey && ValidIdentity(identity)
  {
    assert "r" + "/" + ("n" + "/" + identity.configKey) == "r/n/" + identity.configKey;
  }

  lemma PathDecodes(identity: ConfigIdentity, content: string)
    requires identity in {X, Y}
    ensures IdentityFromGitHubPath("r", FileOf(identity, content).path) == Some(identity)
  {
    PathIsClean(identity);
    PathIsJoined(identity);
    AcceptedExactlyWhenJoined("r", "r/n/" + identity.configKey, identity);
  }

  lemma DigestInjective(a: string, b: string)
    requires Digest(a) == Digest(b)
    ensures a == b
  {
    assert a == Digest(a)[1..] && b == Digest(b)[1..];
  }

  lemma OneFileUnderRoot(root: string, identity: ConfigIdentity, file: FetchedConfig)
    requires IdentityFromGitHubPath(root, file.path) == Some(identity)
    ensures UnderRoot(root, map[identity := file])
  {
  }

  lemma TreesDecode()
    ensures TreesUnderRoot(ENV)
  {
    forall c ensures UnderRoot(ENV.root, ENV.tree(c)) {
      if c == "c1" {
        PathDecodes(X, "1");
        OneFileUnderRoot("r", X, FileOf(X, "1"));
      } else if c == "c2" {
        PathDecodes(Y, "2");
        OneFileUnderRoot("r", Y, FileOf(Y, "2"));
      }
    }
  }

  lemma DigestsTell()
    ensures HashNeverCollides(ENV) && HashNeverEmpty(ENV)
  {
    forall c, d, identity | identity in ENV.tree(c) && identity in ENV.tree(d)
        && ENV.hash(ENV.tree(c)[identity].content) == ENV.hash(ENV.tree(d)[identity].content)
      ensures ENV.tree(c)[identity].content == ENV.tree(d)[identity].content
    {
      DigestInjective(ENV.tree(c)[identity].content, ENV.tree(d)[identity].content);
    }
  }

  function Upsert(commit: string, identity: ConfigIdentity, content: string): SyncConfigItem {
    SyncConfigItem(identity, FileOf(identity, content).path, content, Digest(content), commit)
  }

  /** One instance's sync up to its lists, in one go, from a fresh table. */
  lemma SyncUpToDiff(s: State, i: string, at: Time, commit: string, identity: ConfigIdentity, content: string)
    returns (states: seq<State>, actions: seq<Action>)
    requires i in s.locals && s.locals[i].phase.Idle? && at >= s.now && s.lock.expireAt < DbNow(at)
    requires s.current == map[] && s.checkpoint == "" && commit != ""
    requires TreeOfCommit(commit) == map[identity := FileOf(identity, content)]
    ensures IsPath(ENV, states, actions) && |actions| == 5 && states[0] == s
    ensures forall k :: 0 <= k < 5 ==> !actions[k].op.Commit?
    ensures states[5] == s.(
      now := at, lock := LeaseRow(i, DbNow(at) + 1),
      locals := s.locals[i := Local(Diffed(commit, [Upsert(commit, identity, content)], []), at + SECOND)])
  {
    var upserts := [Upsert(commit, identity, content)];
    actions := [
      Action(at, i, TakeLock), Action(at, i, ReadCheckpoint), Action(at, i, ReadHead(commit)),
      Action(at, i, Fetch), Action(at, i, ListAndDiff(upserts, []))];
    var s1 := Step(ENV, s, actions[0]);
    var s2 := Step(ENV, s1, actions[1]);
    var s3 := Step(ENV, s2, actions[2]);
    var s4 := Step(ENV, s3, actions[3]);
    FirstDiff(commit, identity, content);
    var s5 := Step(ENV, s4, actions[4]);
    states := [s, s1, s2, s3, s4, s5];
  }

  lemma FirstDiff(commit: string, identity: ConfigIdentity, content: string)
    requires TreeOfCommit(commit) == map[identity := FileOf(identity, content)]
    ensures IsDiff(Digest, "r", TreeOfCommit(commit), RecordsOf(map[]), commit, [Upsert(commit, identity, content)], [])
  {
    var upserts := [Upsert(commit, identity, content)];
    assert upserts[0].identity == identity;
    assert InUpserts(upserts, identity);
  }

  /** The last two steps: b commits, then a commits although b took the lease. */
  lemma BothCommit(s: State) returns (states: seq<State>, actions: seq<Action>)
    requires s.locals.Keys == {"a", "b"} && s.now == 3 * SECOND && s.current == map[] && s.lock.owner == "b"
    requires s.locals["a"] == Local(Diffed("c1", [Upsert("c1", X, "1")], []), 2 * SECOND)
    requires s.locals["b"] == Local(Diffed("c2", [Upsert("c2", Y, "2")], []), 4 * SECOND)
    ensures IsPath(ENV, states, actions) && |actions| == 2 && states[0] == s
    ensures HoldsLease(states[0], actions[0]) && !HoldsLease(states[1], actions[1])
    ensures states[2].repoVersion == "c1" && LiveView(states[2].current) != ContentView(TREE_1)
  {
    actions := [Action(3 * SECOND, "b", Commit), Action(3 * SECOND, "a", Commit)];
    var afterB := Step(ENV, s, actions[0]);
    var afterA := Step(ENV, afterB, actions[1]);
    states := [s, afterB, afterA];
    UpsertsPointwise(s.current, [Upsert("c2", Y, "2")], "c2", Y);
    UpsertsPointwise(afterB.current, [Upsert("c1", X, "1")], "c1", Y);
    assert [Upsert("c2", Y, "2")][0].identity == Y;
    assert afterA.current == ApplyUpserts(afterB.current, [Upsert("c1", X, "1")], "c1");
    assert Y in LiveView(afterA.current) && Y !in ContentView(TREE_1);
  }

  /** Two syncs up to their lists, then both commits, as one path. */
  lemma Assemble(
    statesA: seq<State>, actionsA: seq<Action>, statesB: seq<State>, actionsB: seq<Action>,
    statesC: seq<State>, actionsC: seq<Action>) returns (states: seq<State>, actions: seq<Action>)
    requires IsPath(ENV, statesA, actionsA) && IsPath(ENV, statesB, actionsB) && IsPath(ENV, statesC, actionsC)
    requires |actionsA| == |actionsB| == 5 && |actionsC| == 2
    requires statesA[5] == statesB[0] && statesB[5] == statesC[0]
    requires forall k :: 0 <= k < 5 ==> !actionsA[k].op.Commit? && !actionsB[k].op.Commit?
    requires HoldsLease(statesC[0], actionsC[0])
    ensures IsPath(ENV, states, actions) && |actions| == 12
    ensures states[0] == statesA[0] && states[11] == statesC[1] && states[12] == statesC[2] && actions[11] == actionsC[1]
    ensures forall k :: 0 <= k < 11 ==> HoldsLease(states[k], actions[k])
  {
    JoinPaths(ENV, statesA, actionsA, statesB, actionsB);
    var statesAB, actionsAB := statesA + statesB[1..], actionsA + actionsB;
    JoinPaths(ENV, statesAB, actionsAB, statesC, actionsC);
    states, actions := statesAB + statesC[1..], actionsAB + actionsC;
    forall k | 0 <= k < 11 ensures HoldsLease(states[k], actions[k]) {
      if k < 5 {
        assert actions[k] == actionsA[k];
      } else if k < 10 {
        assert actions[k] == actionsB[k - 5];
      } else {
        assert states[k] == statesAB[10] == statesC[0] && actions[k] == actionsC[0];
      }
    }
  }

  /** Instance a stalls between reading the table and committing; b takes the expired lease
      and commits another head; then a commits. The published version is a's commit,
      and the table also serves b's file. */
  lemma LateCommitBreaksTable() returns (states: seq<State>, actions: seq<Action>, late: nat)
    ensures RepositoryOk(ENV) && IsRun(ENV, states, actions) && late == |actions| - 1
    ensures forall k :: 0 <= k < late ==> HoldsLease(states[k], actions[k])
    ensures !HoldsLease(states[late], actions[late])
    ensures states[late + 1].repoVersion == "c1"
    ensures LiveView(states[late + 1].current) != ContentView(ENV.tree("c1"))
  {
    TreesDecode();
    DigestsTell();
    var start := State(0, LeaseRow("", 0), map[], "", "", map["a" := Local(Idle, 0), "b" := Local(Idle, 0)]);
    var statesA, actionsA := SyncUpToDiff(start, "a", SECOND, "c1", X, "1");
    var statesB, actionsB := SyncUpToDiff(statesA[5], "b", 3 * SECOND, "c2", Y, "2");
    var statesC, actionsC := BothCommit(statesB[5]);
    states, actions := Assemble(statesA, actionsA, statesB, actionsB, statesC, actionsC);
    late := 11;
  }
}
