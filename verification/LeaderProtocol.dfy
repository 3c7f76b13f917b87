/** N instances competing for the lease and syncing (server/syncer.go over server/store.go)
    as a step relation: every statement, transaction and GitHub answer is a step of its own,
    at a time of its own, interleaved with those of all other instances. */
module LeaderProtocol {
  import opened ConfigTypes
  import opened PathCodec
  import opened ConfigTable
  import opened Lease

  /** What stays fixed: the root, the hash, the tree of every commit, each instance's ttl. */
  datatype Env = Env(root: string, hash: Hash, tree: string -> Tree, ttl: string -> Time)

  /** Where an instance is in SyncOnce. */
  datatype Phase =
    | Idle
    | Acquired
    | CheckpointRead(checkpoint: string)
    | HeadRead(checkpoint: string, head: string)
    | Fetched(head: string)
    | Diffed(head: string, upserts: seq<SyncConfigItem>, deletes: seq<DeletedConfigItem>)
    | Releasing

  /** `leaseUntil` is the ttl counted from the instance's last acquire or renewal. */
  datatype Local = Local(phase: Phase, leaseUntil: Time)

  datatype State = State(
    now: Time, lock: LeaseRow, current: Table, checkpoint: string, repoVersion: string,
    locals: map<string, Local>)

  /** RenewLock may come in any phase: the renewal goroutine is not waited for. Abort is any
      error before the commit. */
  datatype Op =
    | TakeLock
    | RenewLock
    | ReadCheckpoint
    | ReadHead(head: string)
    | Skip
    | Fetch
    | ListAndDiff(upserts: seq<SyncConfigItem>, deletes: seq<DeletedConfigItem>)
    | Commit
    | Abort
    | ReleaseLock(fails: bool)

  datatype Action = Action(at: Time, instance: string, op: Op)

  ghost predicate Enabled(env: Env, s: State, a: Action) {
    && a.at >= s.now
    && a.instance in s.locals
    && var phase := s.locals[a.instance].phase;
       match a.op
       case TakeLock => phase.Idle?
       case RenewLock => true
       case ReadCheckpoint => phase.Acquired?
       case ReadHead(head) => phase.CheckpointRead? && head != ""
       case Skip => phase.HeadRead? && phase.checkpoint == phase.head
       case Fetch => phase.HeadRead? && phase.checkpoint != phase.head
       case ListAndDiff(upserts, deletes) =>
         && phase.Fetched?
         && IsDiff(env.hash, env.root, env.tree(phase.head), RecordsOf(s.current), phase.head, upserts, deletes)
       case Commit => phase.Diffed?
       case Abort => !phase.Idle? && !phase.Releasing?
       case ReleaseLock(_) => phase.Releasing?
  }

  function Move(s: State, i: string, phase: Phase): State
    requires i in s.locals
  {
    s.(locals := s.locals[i := s.locals[i].(phase := phase)])
  }

  /** An acquire or a renewal: when its statement matches, the lease counts from now. */
  function Extend(s: State, i: string, e: LeaseEvent, ttl: Time, phase: Phase): State
    requires i in s.locals
  {
    if !Matches(s.lock, e) then s
    else s.(lock := Execute(s.lock, e), locals := s.locals[i := Local(phase, e.at + ttl)])
  }

  ghost function Step(env: Env, s0: State, a: Action): State
    requires Enabled(env, s0, a)
  {
    var s := s0.(now := a.at);
    var i := a.instance;
    var phase := s.locals[i].phase;
    match a.op
    case TakeLock => Extend(s, i, LeaseEvent(a.at, Acquire(i, env.ttl(i))), env.ttl(i), Acquired)
    case RenewLock => Extend(s, i, LeaseEvent(a.at, Renew(i, env.ttl(i))), env.ttl(i), phase)
    case ReadCheckpoint => Move(s, i, CheckpointRead(s.checkpoint))
    case ReadHead(head) => Move(s, i, HeadRead(phase.checkpoint, head))
    case Skip => Move(s, i, Releasing)
    case Fetch => Move(s, i, Fetched(phase.head))
    case ListAndDiff(upserts, deletes) => Move(s, i, Diffed(phase.head, upserts, deletes))
    case Commit =>
      Move(s, i, Releasing).(
        current := ApplyLists(env.hash, s.current, phase.upserts, phase.deletes, phase.head),
        checkpoint := phase.head, repoVersion := phase.head)
    case Abort => Move(s, i, Releasing)
    case ReleaseLock(fails) =>
      Move(s, i, Idle).(lock := if fails then s.lock else Execute(s.lock, LeaseEvent(a.at, Release(i))))
  }

  /** Fresh tables, nobody syncing. */
  predicate Init(s: State) {
    && s.lock == LeaseRow("", 0)
    && s.current == map[] && s.checkpoint == "" && s.repoVersion == ""
    && forall i :: i in s.locals ==> s.locals[i].phase == Idle
  }

  ghost predicate IsRun(env: Env, states: seq<State>, actions: seq<Action>) {
    IsPath(env, states, actions) && Init(states[0])
  }

  ghost predicate IsPath(env: Env, states: seq<State>, actions: seq<Action>) {
    && |states| == |actions| + 1
    && forall k :: 0 <= k < |actions| ==> StepAt(env, states, actions, k)
  }

  ghost predicate StepAt(env: Env, states: seq<State>, actions: seq<Action>, k: int)
    requires 0 <= k < |actions| == |states| - 1
  {
    Enabled(env, states[k], actions[k]) && states[k + 1] == Step(env, states[k], actions[k])
  }


  /** The transaction is not fenced by the lease. It commits in time when no more than ttl has
      passed since the instance's last acquire or renewal. */
  predicate InTime(s: State, a: Action) {
    a.op.Commit? && a.instance in s.locals ==> a.at <= s.locals[a.instance].leaseUntil
  }

  /** No other instance has taken the lease since. */
  predicate HoldsLease(s: State, a: Action) {
    a.op.Commit? ==> s.lock.owner == a.instance
  }

  /** Every transaction of the run commits before another instance takes the lease. */
  ghost predicate AllHoldLease(states: seq<State>, actions: seq<Action>)
    requires |actions| <= |states|
  {
    forall m :: 0 <= m < |actions| ==> HoldsLease(states[m], actions[m])
  }

  /** Every transaction of the run commits in time. */
  ghost predicate AllInTime(states: seq<State>, actions: seq<Action>)
    requires |actions| <= |states|
  {
    forall m :: 0 <= m < |actions| ==> InTime(states[m], actions[m])
  }

  /** What the theorem needs of the repository: the trees are listed under the root, and the
      hash neither collides on two contents of one identity nor is ever empty. */
  ghost predicate RepositoryOk(env: Env) {
    TreesUnderRoot(env) && HashNeverEmpty(env) && HashNeverCollides(env)
  }

  ghost predicate TreesUnderRoot(env: Env) {
    forall c :: UnderRoot(env.root, env.tree(c))
  }

  ghost predicate HashNeverEmpty(env: Env) {
    forall c, identity :: identity in env.tree(c) ==> env.hash(env.tree(c)[identity].content) != ""
  }

  ghost predicate HashNeverCollides(env: Env) {
    forall c, d, identity :: identity in env.tree(c) && identity in env.tree(d)
      && env.hash(env.tree(c)[identity].content) == env.hash(env.tree(d)[identity].content)
      ==> env.tree(c)[identity].content == env.tree(d)[identity].content
  }

  // ----- the invariant -----

  /** Every live row holds what its commit has for it. */
  ghost predicate RowsFromCommits(env: Env, table: Table) {
    forall identity :: identity in table && !table[identity].deleted ==>
      && identity in env.tree(table[identity].commit)
      && env.tree(table[identity].commit)[identity].content == table[identity].content
  }

  ghost predicate TableOk(env: Env, table: Table) {
    PathsDecode(env.root, table) && HashesMatch(env.hash, table) && RowsFromCommits(env, table)
  }

  /** What the instance read is still what the tables hold. */
  ghost predicate StillFresh(env: Env, s: State, phase: Phase) {
    match phase
    case CheckpointRead(checkpoint) => checkpoint == s.checkpoint
    case HeadRead(checkpoint, head) => checkpoint == s.checkpoint && head != ""
    case Fetched(head) => head != ""
    case Diffed(head, upserts, deletes) =>
      head != "" && IsDiff(env.hash, env.root, env.tree(head), RecordsOf(s.current), head, upserts, deletes)
    case _ => true
  }

  ghost predicate LocalOk(env: Env, s: State, i: string)
    requires i in s.locals
  {
    var local := s.locals[i];
    local.phase.Idle? ||
    (&& ((s.lock.owner == i && (s.lock.expireAt + 1) * SECOND > local.leaseUntil) || s.now > local.leaseUntil)
     && (s.lock.owner == i ==> StillFresh(env, s, local.phase)))
  }

  ghost predicate TableIsTree(env: Env, s: State) {
    && s.checkpoint == s.repoVersion
    && (s.repoVersion != "" ==> LiveView(s.current) == ContentView(env.tree(s.repoVersion)))
  }

  ghost predicate Inv(env: Env, s: State) {
    && TableIsTree(env, s)
    && (s.repoVersion == "" ==> s.current == map[])
    && TableOk(env, s.current)
    && forall i :: i in s.locals ==> LocalOk(env, s, i)
  }

  /** A commit that is in time is made by the instance that still has the lease: real time
      excludes everyone else, although the transaction does not look at the lock. */
  lemma InTimeHoldsLease(env: Env, s: State, a: Action)
    requires Inv(env, s) && Enabled(env, s, a) && InTime(s, a)
    ensures HoldsLease(s, a)
  {
    assert LocalOk(env, s, a.instance);
  }

  lemma RowsToldApart(env: Env, table: Table, head: string)
    requires RepositoryOk(env) && TableOk(env, table)
    ensures HashTells(env.hash, env.tree(head), table)
    ensures StaleRowsUnderRoot(env.root, env.tree(head), table)
  {
    forall identity | identity in env.tree(head) ensures HashTellsAt(env.hash, env.tree(head), table, identity) {
      if identity in table && !table[identity].deleted {
        assert identity in env.tree(table[identity].commit);
      }
    }
  }

  /** The commit of a fresh difference makes the table the head's tree. */
  lemma CommitMakesTree(env: Env, table: Table, head: string, upserts: seq<SyncConfigItem>, deletes: seq<DeletedConfigItem>)
    requires RepositoryOk(env) && TableOk(env, table)
    requires IsDiff(env.hash, env.root, env.tree(head), RecordsOf(table), head, upserts, deletes)
    ensures LiveView(ApplyLists(env.hash, table, upserts, deletes, head)) == ContentView(env.tree(head))
    ensures TableOk(env, ApplyLists(env.hash, table, upserts, deletes, head))
  {
    var after := ApplyLists(env.hash, table, upserts, deletes, head);
    RowsToldApart(env, table, head);
    SyncExactlyWhen(env.hash, env.root, env.tree(head), table, head, upserts, deletes);
    SyncKeepsInvariants(env.hash, env.root, env.tree(head), table, head, upserts, deletes);
    forall identity | identity in after && !after[identity].deleted
      ensures identity in env.tree(after[identity].commit)
      ensures env.tree(after[identity].commit)[identity].content == after[identity].content
    {
      ApplyDiffPointwise(env.hash, env.root, env.tree(head), RecordsOf(table), table, head, upserts, deletes, identity);
    }
  }

  /** A step of one instance leaves what every other instance relies on. */
  lemma OthersUndisturbed(env: Env, s: State, a: Action, j: string)
    requires Enabled(env, s, a) && HoldsLease(s, a)
    requires j in s.locals && j != a.instance && LocalOk(env, s, j)
    ensures LocalOk(env, Step(env, s, a), j)
  {
    if a.op.TakeLock? && s.lock.expireAt < DbNow(a.at) {
      assert a.at >= (s.lock.expireAt + 1) * SECOND;
    }
  }

  lemma OwnStep(env: Env, s: State, a: Action)
    requires Enabled(env, s, a) && HoldsLease(s, a) && LocalOk(env, s, a.instance)
    ensures LocalOk(env, Step(env, s, a), a.instance)
  {
    LeaseCoversTtl(env.ttl(a.instance));
  }

  lemma StepInv(env: Env, s: State, a: Action)
    requires RepositoryOk(env) && Inv(env, s) && Enabled(env, s, a) && HoldsLease(s, a)
    ensures Inv(env, Step(env, s, a))
  {
    var s' := Step(env, s, a);
    forall j | j in s'.locals ensures LocalOk(env, s', j) {
      assert LocalOk(env, s, j);
      if j == a.instance {
        OwnStep(env, s, a);
      } else {
        OthersUndisturbed(env, s, a, j);
      }
    }
    if a.op.Commit? {
      assert LocalOk(env, s, a.instance);
      var phase := s.locals[a.instance].phase;
      CommitMakesTree(env, s.current, phase.head, phase.upserts, phase.deletes);
    }
  }

  lemma {:induction false} RunInv(env: Env, states: seq<State>, actions: seq<Action>, k: nat)
    requires RepositoryOk(env) && IsRun(env, states, actions) && k <= |actions|
    requires forall m :: 0 <= m < k ==> HoldsLease(states[m], actions[m])
    ensures Inv(env, states[k])
  {
    if k > 0 {
      RunInv(env, states, actions, k - 1);
      assert StepAt(env, states, actions, k - 1);
      StepInv(env, states[k - 1], actions[k - 1]);
    }
  }

  /** In every reachable state of the protocol the checkpoint is the published version, and
      once that is a commit the live rows are exactly its tree, provided every transaction
      commits before another instance takes the lease, however late that is. */
  lemma TableFollowsVersion(env: Env, states: seq<State>, actions: seq<Action>, k: nat)
    requires RepositoryOk(env) && IsRun(env, states, actions) && k <= |actions|
    requires AllHoldLease(states, actions)
    ensures states[k].checkpoint == states[k].repoVersion
    ensures states[k].repoVersion != "" ==> LiveView(states[k].current) == ContentView(env.tree(states[k].repoVersion))
  {
    RunInv(env, states, actions, k);
  }

  /** Committing within ttl of the last acquire or renewal is enough for that. */
  lemma {:induction false} InTimeRunHoldsLease(env: Env, states: seq<State>, actions: seq<Action>, k: nat)
    requires RepositoryOk(env) && IsRun(env, states, actions) && k <= |actions|
    requires AllInTime(states, actions)
    ensures forall m :: 0 <= m < k ==> HoldsLease(states[m], actions[m])
  {
    if k > 0 {
      InTimeRunHoldsLease(env, states, actions, k - 1);
      RunInv(env, states, actions, k - 1);
      assert StepAt(env, states, actions, k - 1);
      InTimeHoldsLease(env, states[k - 1], actions[k - 1]);
    }
  }

  /** The step of an instance that has read `head` as the checkpoint and as the branch head. */
  predicate Skips(s: State, a: Action, head: string) {
    a.op.Skip? && a.instance in s.locals && s.locals[a.instance].phase == HeadRead(head, head)
  }

  /** The checkpoint skip is sound: an instance that skips while it has the lease leaves a
      table that already is the head's tree. */
  lemma SkipIsSound(env: Env, states: seq<State>, actions: seq<Action>, k: nat, head: string)
    requires RepositoryOk(env) && IsRun(env, states, actions) && k < |actions|
    requires AllHoldLease(states, actions)
    requires Skips(states[k], actions[k], head) && states[k].lock.owner == actions[k].instance
    ensures LiveView(states[k].current) == ContentView(env.tree(head))
  {
    RunInv(env, states, actions, k);
    assert LocalOk(env, states[k], actions[k].instance);
  }

  ghost predicate ReadAsCheckpoint(states: seq<State>, actions: seq<Action>, k: nat, i: string, checkpoint: string, m: nat) {
    && m < k <= |actions| < |states|
    && actions[m].instance == i && actions[m].op.ReadCheckpoint? && states[m].checkpoint == checkpoint
  }

  lemma {:induction false} CheckpointWasRead(env: Env, states: seq<State>, actions: seq<Action>, k: nat, i: string)
    returns (m: nat)
    requires IsRun(env, states, actions) && k <= |actions| && i in states[k].locals
    requires states[k].locals[i].phase.CheckpointRead? || states[k].locals[i].phase.HeadRead?
    ensures ReadAsCheckpoint(states, actions, k, i, states[k].locals[i].phase.checkpoint, m)
    ensures states[k].locals[i].phase.HeadRead? ==> states[k].locals[i].phase.head != ""
  {
    assert k > 0 && StepAt(env, states, actions, k - 1);
    if actions[k - 1].instance == i && actions[k - 1].op.ReadCheckpoint? {
      m := k - 1;
    } else {
      m := CheckpointWasRead(env, states, actions, k - 1, i);
    }
  }

  /** With or without the lease: when an instance skips, the table was the head's tree at the
      moment it read the checkpoint. */
  lemma SkipFollowsTree(env: Env, states: seq<State>, actions: seq<Action>, k: nat, head: string) returns (m: nat)
    requires RepositoryOk(env) && IsRun(env, states, actions) && k < |actions|
    requires AllHoldLease(states, actions)
    requires Skips(states[k], actions[k], head)
    ensures ReadAsCheckpoint(states, actions, k, actions[k].instance, head, m)
    ensures LiveView(states[m].current) == ContentView(env.tree(head))
  {
    m := CheckpointWasRead(env, states, actions, k, actions[k].instance);
    TableFollowsVersion(env, states, actions, m);
  }

  // ----- the lock row -----

  /** The statement on the lock row that an operation sends. */
  function LockStatement(env: Env, a: Action): seq<LeaseEvent> {
    match a.op
    case TakeLock => [LeaseEvent(a.at, Acquire(a.instance, env.ttl(a.instance)))]
    case RenewLock => [LeaseEvent(a.at, Renew(a.instance, env.ttl(a.instance)))]
    case ReleaseLock(fails) => if fails then [] else [LeaseEvent(a.at, Release(a.instance))]
    case _ => []
  }

  function LockStatements(env: Env, actions: seq<Action>): seq<LeaseEvent> {
    if actions == [] then []
    else LockStatements(env, actions[..|actions| - 1]) + LockStatement(env, actions[|actions| - 1])
  }

  /** The lock row of a run is that of the lease run of its statements, in order of time: so
      every theorem on leases is one on the protocol. */
  lemma {:induction false} LockRunIsLeaseRun(env: Env, states: seq<State>, actions: seq<Action>, k: nat)
    requires IsRun(env, states, actions) && k <= |actions|
    ensures
      var statements := LockStatements(env, actions[..k]);
      && states[k].lock == RowAt(LeaseRow("", 0), statements, |statements|)
      && Ordered(statements)
      && (k > 0 ==> forall m :: 0 <= m < |statements| ==> statements[m].at <= states[k].now)
  {
    if k > 0 {
      LockRunIsLeaseRun(env, states, actions, k - 1);
      assert StepAt(env, states, actions, k - 1);
      assert actions[..k][..k - 1] == actions[..k - 1];
      var before, last := LockStatements(env, actions[..k - 1]), LockStatement(env, actions[k - 1]);
      RowAtOfMore(LeaseRow("", 0), before, last, |before|);
      assert LockStatements(env, actions[..k]) == before + last;
      if last == [] {
        assert before + last == before;
      } else {
        assert (before + last)[|before|] == last[0];
      }
    }
  }

  /** An acquire or renewal of the instance that the row met at step m. */
  predicate GrantAt(env: Env, s: State, a: Action, i: string) {
    && a.instance == i
    && ((a.op.TakeLock? && Matches(s.lock, LeaseEvent(a.at, Acquire(i, env.ttl(i)))))
        || (a.op.RenewLock? && Matches(s.lock, LeaseEvent(a.at, Renew(i, env.ttl(i))))))
  }

  ghost predicate LastGrant(env: Env, states: seq<State>, actions: seq<Action>, k: nat, i: string, m: nat) {
    && m < k <= |actions| < |states|
    && GrantAt(env, states[m], actions[m], i)
    && forall j :: m < j < k ==> !GrantAt(env, states[j], actions[j], i)
  }

  /** While an instance syncs, its time for committing ends ttl after its last grant. */
  lemma {:induction false} LeaseUntilIsLastGrant(env: Env, states: seq<State>, actions: seq<Action>, k: nat, i: string)
    returns (m: nat)
    requires IsRun(env, states, actions) && k <= |actions| && i in states[k].locals && !states[k].locals[i].phase.Idle?
    ensures LastGrant(env, states, actions, k, i, m)
    ensures states[k].locals[i].leaseUntil == actions[m].at + env.ttl(i)
  {
    assert k > 0 && StepAt(env, states, actions, k - 1);
    if GrantAt(env, states[k - 1], actions[k - 1], i) {
      m := k - 1;
    } else {
      m := LeaseUntilIsLastGrant(env, states, actions, k - 1, i);
    }
  }

  // ----- a sync that nobody disturbs -----

  /** Step k of the joined run is a step of one of the two. */
  lemma JoinedAt(states1: seq<State>, actions1: seq<Action>, states2: seq<State>, actions2: seq<Action>, k: nat)
    requires |states1| == |actions1| + 1 && |states2| == |actions2| + 1
    requires states1[|actions1|] == states2[0] && k < |actions1| + |actions2|
    ensures
      var states, actions, n := states1 + states2[1..], actions1 + actions2, |actions1|;
      if k < n then states[k] == states1[k] && actions[k] == actions1[k] && states[k + 1] == states1[k + 1]
      else states[k] == states2[k - n] && actions[k] == actions2[k - n] && states[k + 1] == states2[k - n + 1]
  {
  }

  lemma JoinPaths(env: Env, states1: seq<State>, actions1: seq<Action>, states2: seq<State>, actions2: seq<Action>)
    requires IsPath(env, states1, actions1) && IsPath(env, states2, actions2)
    requires states1[|actions1|] == states2[0]
    ensures IsPath(env, states1 + states2[1..], actions1 + actions2)
    ensures (states1 + states2[1..])[|actions1| + |actions2|] == states2[|actions2|]
  {
    var states := states1 + states2[1..];
    var actions := actions1 + actions2;
    forall k | 0 <= k < |actions|
      ensures StepAt(env, states, actions, k)
    {
      assert k < |actions1| ==> StepAt(env, states1, actions1, k);
      assert k >= |actions1| ==> StepAt(env, states2, actions2, k - |actions1|);
      JoinedAt(states1, actions1, states2, actions2, k);
    }
  }

  /** The instance takes the lease and reads checkpoint and head. */
  lemma ReadsThrough(env: Env, s: State, i: string, at: Time, head: string) returns (states: seq<State>, actions: seq<Action>)
    requires i in s.locals && s.locals[i].phase.Idle? && at >= s.now && s.lock.expireAt < DbNow(at) && head != ""
    ensures IsPath(env, states, actions) && states[0] == s
    ensures states[|actions|] == s.(
      now := at, lock := LeaseRow(i, DbNow(at) + LeaseSeconds(env.ttl(i))),
      locals := s.locals[i := Local(HeadRead(s.checkpoint, head), at + env.ttl(i))])
  {
    actions := [Action(at, i, TakeLock), Action(at, i, ReadCheckpoint), Action(at, i, ReadHead(head))];
    var s1 := Step(env, s, actions[0]);
    var s2 := Step(env, s1, actions[1]);
    states := [s, s1, s2, Step(env, s2, actions[2])];
  }

  /** From there it computes its lists. */
  lemma DiffsThrough(
    env: Env, s: State, i: string, head: string, upserts: seq<SyncConfigItem>, deletes: seq<DeletedConfigItem>)
    returns (states: seq<State>, actions: seq<Action>)
    requires i in s.locals && s.locals[i].phase == HeadRead(s.checkpoint, head) && head != s.checkpoint
    requires IsDiff(env.hash, env.root, env.tree(head), RecordsOf(s.current), head, upserts, deletes)
    ensures IsPath(env, states, actions) && states[0] == s
    ensures states[|actions|] == s.(locals := s.locals[i := s.locals[i].(phase := Diffed(head, upserts, deletes))])
  {
    actions := [Action(s.now, i, Fetch), Action(s.now, i, ListAndDiff(upserts, deletes))];
    var fetched := Step(env, s, actions[0]);
    states := [s, fetched, Step(env, fetched, actions[1])];
  }

  /** And commits them and gives the lease back. */
  lemma CommitsThrough(
    env: Env, s: State, i: string, head: string, upserts: seq<SyncConfigItem>, deletes: seq<DeletedConfigItem>)
    returns (states: seq<State>, actions: seq<Action>)
    requires i in s.locals && s.locals[i].phase == Diffed(head, upserts, deletes) && s.lock.owner == i
    ensures IsPath(env, states, actions) && states[0] == s
    ensures states[|actions|] == State(
      s.now, LeaseRow(i, DbNow(s.now)), ApplyLists(env.hash, s.current, upserts, deletes, head), head, head,
      s.locals[i := s.locals[i].(phase := Idle)])
  {
    actions := [Action(s.now, i, Commit), Action(s.now, i, ReleaseLock(false))];
    var committed := Step(env, s, actions[0]);
    states := [s, committed, Step(env, committed, actions[1])];
  }

  /** From any state in which the lease is free, an idle instance can sync any other head in one
      go: it publishes the head with its lists applied, and the lease is over. */
  lemma SyncRunsThrough(
    env: Env, s: State, i: string, at: Time, head: string, upserts: seq<SyncConfigItem>, deletes: seq<DeletedConfigItem>)
    returns (states: seq<State>, actions: seq<Action>)
    requires i in s.locals && s.locals[i].phase.Idle? && at >= s.now && s.lock.expireAt < DbNow(at)
    requires head != "" && head != s.checkpoint
    requires IsDiff(env.hash, env.root, env.tree(head), RecordsOf(s.current), head, upserts, deletes)
    ensures IsPath(env, states, actions) && states[0] == s
    ensures states[|actions|] == State(
      at, LeaseRow(i, DbNow(at)), ApplyLists(env.hash, s.current, upserts, deletes, head), head, head,
      s.locals[i := Local(Idle, at + env.ttl(i))])
  {
    var states1, actions1 := ReadsThrough(env, s, i, at, head);
    var states2, actions2 := DiffsThrough(env, states1[|actions1|], i, head, upserts, deletes);
    JoinPaths(env, states1, actions1, states2, actions2);
    var states3, actions3 := CommitsThrough(env, states2[|actions2|], i, head, upserts, deletes);
    JoinPaths(env, states1 + states2[1..], actions1 + actions2, states3, actions3);
    states, actions := states1 + states2[1..] + states3[1..], actions1 + actions2 + actions3;
  }

  /** And if the head is the checkpoint, it changes nothing but the lock row. */
  lemma SkipRunsThrough(env: Env, s: State, i: string, at: Time) returns (states: seq<State>, actions: seq<Action>)
    requires i in s.locals && s.locals[i].phase.Idle? && at >= s.now && s.lock.expireAt < DbNow(at) && s.checkpoint != ""
    ensures IsPath(env, states, actions) && states[0] == s
    ensures states[|actions|] == s.(
      now := at, lock := LeaseRow(i, DbNow(at)), locals := s.locals[i := Local(Idle, at + env.ttl(i))])
  {
    var states1, actions1 := ReadsThrough(env, s, i, at, s.checkpoint);
    var read := states1[|actions1|];
    var actions2 := [Action(at, i, Skip), Action(at, i, ReleaseLock(false))];
    var skipped := Step(env, read, actions2[0]);
    var states2 := [read, skipped, Step(env, skipped, actions2[1])];
    JoinPaths(env, states1, actions1, states2, actions2);
    states, actions := states1 + states2[1..], actions1 + actions2;
  }

  // ----- without any timing -----

  /** The difference of the instance was computed from the table of an earlier state m. */
  ghost predicate ComputedFrom(env: Env, earlier: State, phase: Phase) {
    && phase.Diffed? && phase.head != ""
    && IsDiff(env.hash, env.root, env.tree(phase.head), RecordsOf(earlier.current), phase.head, phase.upserts, phase.deletes)
  }

  /** What an instance carries between its steps, whatever happened to the tables since. */
  ghost predicate ReadBefore(env: Env, states: seq<State>, k: nat, phase: Phase)
    requires k < |states|
  {
    match phase
    case HeadRead(_, head) => head != ""
    case Fetched(head) => head != ""
    case Diffed(_, _, _) => exists m :: 0 <= m <= k && ComputedFrom(env, states[m], phase)
    case _ => true
  }

  lemma {:induction false} PhaseReadBefore(env: Env, states: seq<State>, actions: seq<Action>, k: nat, i: string)
    requires IsRun(env, states, actions) && k <= |actions| && i in states[k].locals
    ensures ReadBefore(env, states, k, states[k].locals[i].phase)
  {
    if k > 0 {
      var s, a := states[k - 1], actions[k - 1];
      assert StepAt(env, states, actions, k - 1);
      PhaseReadBefore(env, states, actions, k - 1, i);
      var phase := states[k].locals[i].phase;
      if a.instance == i && a.op.ListAndDiff? {
        assert ComputedFrom(env, s, phase);
      } else if phase.Diffed? {
        var m :| 0 <= m <= k - 1 && ComputedFrom(env, states[m], phase);
      }
    }
  }

  /** The table found by a commit agrees with the head on what its lists do not touch. */
  ghost predicate CommitAgrees(env: Env, s: State, a: Action) {
    a.op.Commit? && a.instance in s.locals && s.locals[a.instance].phase.Diffed? ==>
      var phase := s.locals[a.instance].phase;
      forall identity :: !InUpserts(phase.upserts, identity) && !InDeletes(phase.deletes, identity) ==>
        Agrees(s.current, env.tree(phase.head), identity)
  }

  /** In any run, early or late, with any hash: a commit leaves the head's tree if and only if
      it finds a table that already agrees with it outside its lists. */
  lemma CommitExactly(env: Env, states: seq<State>, actions: seq<Action>, k: nat)
    requires IsRun(env, states, actions) && k < |actions| && StepAt(env, states, actions, k)
    requires actions[k].op.Commit?
    ensures states[k + 1].checkpoint == states[k + 1].repoVersion == states[k].locals[actions[k].instance].phase.head != ""
    ensures LiveView(states[k + 1].current) == ContentView(env.tree(states[k + 1].repoVersion))
       <==> CommitAgrees(env, states[k], actions[k])
  {
    var s := states[k];
    var phase := s.locals[actions[k].instance].phase;
    PhaseReadBefore(env, states, actions, k, actions[k].instance);
    var m :| 0 <= m <= k && ComputedFrom(env, states[m], phase);
    OldListsExactlyWhen(env.hash, env.root, env.tree(phase.head), RecordsOf(states[m].current), s.current,
                        phase.head, phase.upserts, phase.deletes);
  }

  lemma OtherStepsKeepTable(env: Env, s: State, a: Action)
    requires Enabled(env, s, a) && !a.op.Commit?
    ensures TableIsTree(env, Step(env, s, a)) <==> TableIsTree(env, s)
  {
  }

  /** So a run keeps the table at the published commit's tree throughout if and only if every
      commit in it does. */
  lemma TableIsAlwaysTreeExactly(env: Env, states: seq<State>, actions: seq<Action>)
    requires IsRun(env, states, actions)
    ensures (forall k :: 0 <= k < |states| ==> TableIsTree(env, states[k]))
       <==> (forall k :: 0 <= k < |actions| ==> CommitAgrees(env, states[k], actions[k]))
  {
    if forall k :: 0 <= k < |states| ==> TableIsTree(env, states[k]) {
      forall k | 0 <= k < |actions| && actions[k].op.Commit? ensures CommitAgrees(env, states[k], actions[k]) {
        assert StepAt(env, states, actions, k) && TableIsTree(env, states[k + 1]);
        CommitExactly(env, states, actions, k);
      }
    }
    if forall k :: 0 <= k < |actions| ==> CommitAgrees(env, states[k], actions[k]) {
      AgreeingCommitsKeepTree(env, states, actions, |actions|);
    }
  }

  lemma {:induction false} AgreeingCommitsKeepTree(env: Env, states: seq<State>, actions: seq<Action>, n: nat)
    requires IsRun(env, states, actions) && n <= |actions|
    requires forall k :: 0 <= k < |actions| ==> CommitAgrees(env, states[k], actions[k])
    ensures forall k :: 0 <= k <= n ==> TableIsTree(env, states[k])
  {
    if n > 0 {
      AgreeingCommitsKeepTree(env, states, actions, n - 1);
      assert StepAt(env, states, actions, n - 1);
      if actions[n - 1].op.Commit? {
        CommitExactly(env, states, actions, n - 1);
      } else {
        OtherStepsKeepTable(env, states[n - 1], actions[n - 1]);
      }
    }
  }

  // ----- a head that stays -----

  /** The tables are at `head` and nobody who has the lease can commit without reading again. */
  ghost predicate Settled(env: Env, s: State, head: string) {
    && s.checkpoint == s.repoVersion == head
    && forall i :: i in s.locals && s.lock.owner == i ==>
      match s.locals[i].phase
      case CheckpointRead(checkpoint) => checkpoint == head
      case HeadRead(checkpoint, h) => checkpoint == h == head
      case Fetched(_) => false
      case Diffed(_, _, _) => false
      case _ => true
  }

  lemma CommitSettles(env: Env, s: State, a: Action)
    requires Enabled(env, s, a) && HoldsLease(s, a) && a.op.Commit?
    ensures Settled(env, Step(env, s, a), s.locals[a.instance].phase.head)
  {
  }

  /** A sync that finds the checkpoint at the head settles it as well. */
  lemma SkipSettles(env: Env, s: State, a: Action, head: string)
    requires Inv(env, s) && Enabled(env, s, a) && Skips(s, a, head) && s.lock.owner == a.instance
    ensures Settled(env, Step(env, s, a), head)
  {
    assert LocalOk(env, s, a.instance);
  }

  /** While GitHub answers with that head, no further transaction commits: every sync finds
      the checkpoint at the head. */
  lemma SettledStays(env: Env, s: State, a: Action, head: string)
    requires Settled(env, s, head) && Enabled(env, s, a) && HoldsLease(s, a)
    requires a.op.ReadHead? ==> a.op.head == head
    ensures !a.op.Commit? && Settled(env, Step(env, s, a), head)
    ensures Step(env, s, a).current == s.current && Step(env, s, a).repoVersion == s.repoVersion
  {
  }
}
