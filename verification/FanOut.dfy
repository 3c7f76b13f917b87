/** The concurrent download of one commit (server/github_snapshot_reader.go): one goroutine
    per accepted file, a semaphore of eight slots, a buffered result channel, a goroutine
    that closes the channel, and a collector that may return at the first error. */
module FanOut {
  import opened ConfigTypes
  import opened PathCodec

  const CONCURRENCY: nat := 8

  datatype Job = Job(identity: ConfigIdentity, path: string)

  datatype FetchResult = FetchResult(job: Job, content: Option<string>)

  /** A file's bytes, or None when its request fails. */
  type Fetch = string -> Option<string>

  /** The files a goroutine is started for. */
  function JobsOf(rootPath: string, files: seq<string>): (jobs: seq<Job>)
    ensures |jobs| <= |files|
  {
    if files == [] then []
    else
      var before := JobsOf(rootPath, files[..|files| - 1]);
      match IdentityFromGitHubPath(rootPath, files[|files| - 1])
      case None => before
      case Some(identity) => before + [Job(identity, files[|files| - 1])]
  }

  ghost predicate DistinctIdentities(jobs: seq<Job>) {
    forall i, j :: 0 <= i < j < |jobs| ==> jobs[i].identity != jobs[j].identity
  }

  /** No two paths share an identity: exactly then an arrival never replaces another one's
      entry by something else. */
  ghost predicate OnePathEach(jobs: seq<Job>) {
    forall i, j :: 0 <= i < j < |jobs| && jobs[i].identity == jobs[j].identity ==> jobs[i].path == jobs[j].path
  }

  lemma {:induction false} JobsComeFromFiles(rootPath: string, files: seq<string>, j: nat)
    requires j < |JobsOf(rootPath, files)|
    ensures JobsOf(rootPath, files)[j].path in files
    ensures IdentityFromGitHubPath(rootPath, JobsOf(rootPath, files)[j].path) == Some(JobsOf(rootPath, files)[j].identity)
  {
    if j < |JobsOf(rootPath, files[..|files| - 1])| {
      JobsComeFromFiles(rootPath, files[..|files| - 1], j);
    }
  }

  /** Every accepted file gets a goroutine. */
  lemma {:induction false} AcceptedFileIsJob(rootPath: string, files: seq<string>, i: nat)
    requires i < |files| && IdentityFromGitHubPath(rootPath, files[i]).Some?
    ensures Job(IdentityFromGitHubPath(rootPath, files[i]).value, files[i]) in JobsOf(rootPath, files)
  {
    if i < |files| - 1 {
      AcceptedFileIsJob(rootPath, files[..|files| - 1], i);
    }
  }

  /** Distinct files whose paths are normalized, as git lists them, give distinct
      identities. */
  lemma {:induction false} NormalizedFilesGiveDistinctJobs(rootPath: string, files: seq<string>)
    requires Distinct(files)
    requires forall file :: file in files ==> NormalizePath(file) == file
    ensures DistinctIdentities(JobsOf(rootPath, files))
  {
    if files != [] {
      var before := files[..|files| - 1];
      var last := files[|files| - 1];
      NormalizedFilesGiveDistinctJobs(rootPath, before);
      var jobs := JobsOf(rootPath, files);
      forall i, j | 0 <= i < j < |jobs| ensures jobs[i].identity != jobs[j].identity {
        if j == |JobsOf(rootPath, before)| && jobs[i].identity == jobs[j].identity {
          JobsComeFromFiles(rootPath, before, i);
          CodecInjective(rootPath, jobs[i].path, last);
        }
      }
    }
  }

  // ----- the collector -----

  datatype Gathered = Gathering(tree: Tree) | FetchFailed(path: string)

  function Gather(results: seq<FetchResult>): Gathered {
    if results == [] then Gathering(map[])
    else
      var last := results[|results| - 1];
      match Gather(results[..|results| - 1])
      case FetchFailed(path) => FetchFailed(path)
      case Gathering(tree) =>
        match last.content
        case None => FetchFailed(last.job.path)
        case Some(content) => Gathering(tree[last.job.identity := FetchedConfig(last.job.path, content)])
  }

  lemma {:induction false} GatherStaysFailed(results: seq<FetchResult>, k: nat)
    requires k <= |results| && Gather(results[..k]).FetchFailed?
    ensures Gather(results) == Gather(results[..k])
  {
    if k < |results| {
      assert results[..|results| - 1][..k] == results[..k];
      GatherStaysFailed(results[..|results| - 1], k);
    } else {
      assert results[..k] == results;
    }
  }

  /** The receive loop over the results in the order they arrive: it stops at the first
      error and otherwise fills the map. */
  method CollectResults(results: seq<FetchResult>) returns (r: Gathered)
    ensures r == Gather(results)
    ensures r.FetchFailed? <==> exists k :: 0 <= k < |results| && results[k].content.None?
  {
    var configs: Tree := map[];
    for k := 0 to |results|
      invariant Gather(results[..k]) == Gathering(configs)
      invariant forall i :: 0 <= i < k ==> results[i].content.Some?
    {
      var res := results[k];
      assert results[..k + 1][..k] == results[..k];
      if res.content.None? {
        GatherStaysFailed(results, k + 1);
        return FetchFailed(res.job.path);
      }
      configs := configs[res.job.identity := FetchedConfig(res.job.path, res.content.value)];
    }
    assert results[..|results|] == results;
    r := Gathering(configs);
  }

  // ----- the goroutines -----

  /** `capacity` is the number of listed files, accepted or not. */
  datatype Setup = Setup(jobs: seq<Job>, capacity: nat, fetch: Fetch) {
    predicate FitsChannel() {
      |jobs| <= capacity
    }
  }

  /** A worker waits for a slot, fetches, sends its result and gives the slot back. */
  datatype WorkerPhase = Waiting | Fetching | Sent | Finished

  /** `slots` is the number of tokens in the semaphore channel; `buffer` holds the workers
      whose results are in the result channel, `received` those the collector took. */
  datatype State = State(
    workers: seq<WorkerPhase>, slots: nat, buffer: seq<nat>, closed: bool,
    received: seq<nat>, returned: bool)

  datatype Action = TakeSlot(w: nat) | Send(w: nat) | FreeSlot(w: nat) | CloseChannel | Receive | Drained

  ghost predicate AllJobs(setup: Setup, ws: seq<nat>) {
    forall k :: 0 <= k < |ws| ==> ws[k] < |setup.jobs|
  }

  predicate Fails(setup: Setup, w: nat) {
    w < |setup.jobs| && setup.fetch(setup.jobs[w].path).None?
  }

  function ResultsOf(setup: Setup, ws: seq<nat>): seq<FetchResult>
    requires AllJobs(setup, ws)
  {
    if ws == [] then []
    else
      var job := setup.jobs[ws[|ws| - 1]];
      ResultsOf(setup, ws[..|ws| - 1]) + [FetchResult(job, setup.fetch(job.path))]
  }

  function Start(setup: Setup): State {
    State(seq(|setup.jobs|, _ => Waiting), 0, [], false, [], false)
  }

  predicate Enabled(setup: Setup, s: State, a: Action)
    requires |s.workers| == |setup.jobs|
  {
    match a
    case TakeSlot(w) => w < |s.workers| && s.workers[w] == Waiting && s.slots < CONCURRENCY
    case Send(w) => w < |s.workers| && s.workers[w] == Fetching && |s.buffer| < setup.capacity
    case FreeSlot(w) => w < |s.workers| && s.workers[w] == Sent && s.slots > 0
    case CloseChannel => !s.closed && forall w :: 0 <= w < |s.workers| ==> s.workers[w] == Finished
    case Receive => !s.returned && s.buffer != [] && s.buffer[0] < |setup.jobs|
    case Drained => !s.returned && s.buffer == [] && s.closed
  }

  function Step(setup: Setup, s: State, a: Action): State
    requires |s.workers| == |setup.jobs| && Enabled(setup, s, a)
  {
    match a
    case TakeSlot(w) => s.(workers := s.workers[w := Fetching], slots := s.slots + 1)
    case Send(w) => s.(workers := s.workers[w := Sent], buffer := s.buffer + [w])
    case FreeSlot(w) => s.(workers := s.workers[w := Finished], slots := s.slots - 1)
    case CloseChannel => s.(closed := true)
    case Receive =>
      s.(buffer := s.buffer[1..], received := s.received + [s.buffer[0]],
         returned := Fails(setup, s.buffer[0]))
    case Drained => s.(returned := true)
  }

  function Count(workers: seq<WorkerPhase>, phases: set<WorkerPhase>): nat {
    if workers == [] then 0
    else Count(workers[..|workers| - 1], phases) + (if workers[|workers| - 1] in phases then 1 else 0)
  }

  lemma {:induction false} CountUpdate(workers: seq<WorkerPhase>, phases: set<WorkerPhase>, w: nat, p: WorkerPhase)
    requires w < |workers|
    ensures Count(workers[w := p], phases)
         == Count(workers, phases) - (if workers[w] in phases then 1 else 0) + (if p in phases then 1 else 0)
  {
    var n := |workers| - 1;
    if w == n {
      assert workers[w := p][..n] == workers[..n];
    } else {
      assert workers[w := p][..n] == workers[..n][w := p];
      CountUpdate(workers[..n], phases, w, p);
    }
  }

  lemma {:induction false} CountBounds(workers: seq<WorkerPhase>, phases: set<WorkerPhase>)
    ensures Count(workers, phases) <= |workers|
    ensures Count(workers, phases) > 0 ==> exists w :: 0 <= w < |workers| && workers[w] in phases
    ensures Count(workers, phases) == |workers| ==> forall w :: 0 <= w < |workers| ==> workers[w] in phases
    ensures (forall w :: 0 <= w < |workers| ==> workers[w] !in phases) ==> Count(workers, phases) == 0
  {
    if workers != [] {
      CountBounds(workers[..|workers| - 1], phases);
    }
  }

  const HOLDING := {Fetching, Sent}
  const DELIVERED := {Sent, Finished}

  function Arrived(s: State): seq<nat> {
    s.received + s.buffer
  }

  ghost predicate InvCounts(setup: Setup, s: State) {
    && |s.workers| == |setup.jobs|
    && s.slots == Count(s.workers, HOLDING) <= CONCURRENCY
    && |Arrived(s)| == Count(s.workers, DELIVERED)
  }

  ghost predicate InvDelivery(setup: Setup, s: State) {
    && |s.workers| == |setup.jobs|
    && Distinct(Arrived(s))
    && (forall k :: 0 <= k < |Arrived(s)| ==> Arrived(s)[k] < |s.workers| && s.workers[Arrived(s)[k]] in DELIVERED)
    && (forall w: nat :: w < |s.workers| && s.workers[w] in DELIVERED ==> w in Arrived(s))
    && (s.closed ==> forall w :: 0 <= w < |s.workers| ==> s.workers[w] == Finished)
  }

  ghost predicate NoneFailed(setup: Setup, ws: seq<nat>) {
    forall k :: 0 <= k < |ws| ==> !Fails(setup, ws[k])
  }

  ghost predicate InvReturn(setup: Setup, s: State) {
    if s.returned then !NoneFailed(setup, s.received) || (s.closed && s.buffer == [])
    else NoneFailed(setup, s.received)
  }

  ghost predicate Inv(setup: Setup, s: State) {
    InvCounts(setup, s) && InvDelivery(setup, s) && InvReturn(setup, s)
  }

  lemma StartInv(setup: Setup)
    ensures Inv(setup, Start(setup))
  {
    CountBounds(Start(setup).workers, HOLDING);
    CountBounds(Start(setup).workers, DELIVERED);
  }

  lemma StepCounts(setup: Setup, s: State, a: Action)
    requires InvCounts(setup, s) && Enabled(setup, s, a)
    ensures InvCounts(setup, Step(setup, s, a))
  {
    match a
    case TakeSlot(w) =>
      CountUpdate(s.workers, HOLDING, w, Fetching);
      CountUpdate(s.workers, DELIVERED, w, Fetching);
    case Send(w) =>
      CountUpdate(s.workers, HOLDING, w, Sent);
      CountUpdate(s.workers, DELIVERED, w, Sent);
    case FreeSlot(w) =>
      CountUpdate(s.workers, HOLDING, w, Finished);
      CountUpdate(s.workers, DELIVERED, w, Finished);
    case CloseChannel =>
    case Receive =>
    case Drained =>
  }

  lemma SendDelivery(setup: Setup, s: State, w: nat)
    requires InvDelivery(setup, s) && Enabled(setup, s, Send(w))
    ensures InvDelivery(setup, Step(setup, s, Send(w)))
  {
    var s' := Step(setup, s, Send(w));
    assert w !in Arrived(s);
    assert Arrived(s') == Arrived(s) + [w];
  }

  /** A step that moves one worker at most, and not into or out of the delivered ones. */
  lemma QuietDelivery(setup: Setup, s: State, s': State, w: nat, p: WorkerPhase)
    requires InvDelivery(setup, s) && Arrived(s') == Arrived(s) && w < |s.workers|
    requires s'.workers == s.workers[w := p] && (p in DELIVERED <==> s.workers[w] in DELIVERED)
    requires s'.closed == s.closed && (s.closed ==> s'.workers == s.workers)
    ensures InvDelivery(setup, s')
  {
  }

  lemma StepDelivery(setup: Setup, s: State, a: Action)
    requires InvDelivery(setup, s) && Enabled(setup, s, a)
    ensures InvDelivery(setup, Step(setup, s, a))
  {
    var s' := Step(setup, s, a);
    match a
    case TakeSlot(w) => QuietDelivery(setup, s, s', w, Fetching);
    case Send(w) => SendDelivery(setup, s, w);
    case FreeSlot(w) => QuietDelivery(setup, s, s', w, Finished);
    case CloseChannel =>
      assert Arrived(s') == Arrived(s);
    case Receive =>
      assert s.buffer == [s.buffer[0]] + s.buffer[1..];
      assert Arrived(s') == Arrived(s);
    case Drained =>
      assert Arrived(s') == Arrived(s);
  }

  lemma StepReturn(setup: Setup, s: State, a: Action)
    requires |s.workers| == |setup.jobs| && InvReturn(setup, s) && Enabled(setup, s, a)
    requires s.closed ==> forall w :: 0 <= w < |s.workers| ==> s.workers[w] == Finished
    ensures InvReturn(setup, Step(setup, s, a))
  {
    if a.Receive? && Fails(setup, s.buffer[0]) {
      var received := Step(setup, s, a).received;
      assert Fails(setup, received[|received| - 1]);
    }
  }

  lemma StepInv(setup: Setup, s: State, a: Action)
    requires Inv(setup, s) && Enabled(setup, s, a)
    ensures Inv(setup, Step(setup, s, a))
  {
    StepCounts(setup, s, a);
    StepDelivery(setup, s, a);
    StepReturn(setup, s, a);
  }

  /** Every state a run of the goroutines passes through. */
  ghost predicate IsRun(setup: Setup, states: seq<State>, actions: seq<Action>) {
    && |states| == |actions| + 1
    && states[0] == Start(setup)
    && forall k {:trigger actions[k]} :: 0 <= k < |actions| ==>
      && |states[k].workers| == |setup.jobs|
      && Enabled(setup, states[k], actions[k])
      && states[k + 1] == Step(setup, states[k], actions[k])
  }

  lemma {:induction false} RunInv(setup: Setup, states: seq<State>, actions: seq<Action>, k: nat)
    requires IsRun(setup, states, actions) && k <= |actions|
    ensures Inv(setup, states[k])
  {
    if k == 0 {
      StartInv(setup);
    } else {
      RunInv(setup, states, actions, k - 1);
      StepInv(setup, states[k - 1], actions[k - 1]);
    }
  }

  /** At most eight fetches run at once, and no worker ever finds the result channel full,
      also after the collector has returned. */
  lemma BoundedAndNeverBlocked(setup: Setup, states: seq<State>, actions: seq<Action>, k: nat)
    requires setup.FitsChannel() && IsRun(setup, states, actions) && k <= |actions|
    ensures Count(states[k].workers, {Fetching}) <= 8
    ensures Fetching in states[k].workers ==> |states[k].buffer| < setup.capacity
  {
    RunInv(setup, states, actions, k);
    var s := states[k];
    CountSubset(s.workers, {Fetching}, HOLDING);
    CountBounds(s.workers, DELIVERED);
  }

  lemma {:induction false} CountSubset(workers: seq<WorkerPhase>, some: set<WorkerPhase>, more: set<WorkerPhase>)
    requires some <= more
    ensures Count(workers, some) <= Count(workers, more)
  {
    if workers != [] {
      CountSubset(workers[..|workers| - 1], some, more);
    }
  }

  predicate Over(s: State) {
    s.returned && s.closed
  }

  /** The goroutines never deadlock: until the collector has returned and the channel is
      closed (every worker done), some step is possible. */
  lemma NoDeadlock(setup: Setup, states: seq<State>, actions: seq<Action>) returns (a: Action)
    requires setup.FitsChannel() && IsRun(setup, states, actions)
    requires !Over(states[|actions|])
    ensures |states[|actions|].workers| == |setup.jobs| && Enabled(setup, states[|actions|], a)
  {
    var s := states[|actions|];
    RunInv(setup, states, actions, |actions|);
    BoundedAndNeverBlocked(setup, states, actions, |actions|);
    CountBounds(s.workers, HOLDING);
    if w :| 0 <= w < |s.workers| && s.workers[w] == Fetching {
      a := Send(w);
    } else if w :| 0 <= w < |s.workers| && s.workers[w] == Sent {
      assert s.slots > 0 by {
        if s.slots == 0 { HolderCounts(s.workers, w); }
      }
      a := FreeSlot(w);
    } else if w :| 0 <= w < |s.workers| && s.workers[w] == Waiting {
      a := TakeSlot(w);
    } else if !s.closed {
      a := CloseChannel;
    } else if s.buffer != [] {
      assert s.buffer[0] in Arrived(s);
      a := Receive;
    } else {
      a := Drained;
    }
  }

  lemma HolderCounts(workers: seq<WorkerPhase>, w: nat)
    requires w < |workers| && workers[w] in HOLDING
    ensures Count(workers, HOLDING) > 0
  {
    CountUpdate(workers, HOLDING, w, Finished);
  }

  /** The steps that remain: every action lowers it, so with no deadlock every run ends. */
  function Remaining(s: State): int {
    3 * Count(s.workers, {Waiting}) + 2 * Count(s.workers, {Fetching}) + Count(s.workers, {Waiting, Fetching})
    + Count(s.workers, {Sent}) + |s.buffer| + (if s.closed then 0 else 1) + (if s.returned then 0 else 1)
  }

  lemma StepsRunOut(setup: Setup, s: State, a: Action)
    requires Inv(setup, s) && Enabled(setup, s, a)
    ensures 0 <= Remaining(Step(setup, s, a)) < Remaining(s)
  {
    match a
    case TakeSlot(w) => CountAll(s.workers, w, Fetching);
    case Send(w) => CountAll(s.workers, w, Sent);
    case FreeSlot(w) => CountAll(s.workers, w, Finished);
    case CloseChannel =>
    case Receive =>
    case Drained =>
  }

  lemma CountAll(workers: seq<WorkerPhase>, w: nat, p: WorkerPhase)
    requires w < |workers|
    ensures forall phases :: phases in {{Waiting}, {Fetching}, {Waiting, Fetching}, {Sent}} ==>
      Count(workers[w := p], phases)
      == Count(workers, phases) - (if workers[w] in phases then 1 else 0) + (if p in phases then 1 else 0)
  {
    CountUpdate(workers, {Waiting}, w, p);
    CountUpdate(workers, {Fetching}, w, p);
    CountUpdate(workers, {Waiting, Fetching}, w, p);
    CountUpdate(workers, {Sent}, w, p);
  }

  // ----- the result -----

  ghost predicate Listed(jobs: seq<Job>, identity: ConfigIdentity) {
    exists w :: 0 <= w < |jobs| && jobs[w].identity == identity
  }

  /** The commit's files as one map. */
  ghost function TreeOf(jobs: seq<Job>, fetch: Fetch): (tree: Tree)
    requires OnePathEach(jobs)
    requires forall w :: 0 <= w < |jobs| ==> fetch(jobs[w].path).Some?
    ensures forall w :: 0 <= w < |jobs| ==>
      && jobs[w].identity in tree
      && tree[jobs[w].identity] == FetchedConfig(jobs[w].path, fetch(jobs[w].path).value)
    ensures forall identity :: identity in tree ==> Listed(jobs, identity)
  {
    map w | 0 <= w < |jobs| :: jobs[w].identity := FetchedConfig(jobs[w].path, fetch(jobs[w].path).value)
  }

  lemma {:induction false} GatherContents(setup: Setup, ws: seq<nat>)
    requires OnePathEach(setup.jobs) && AllJobs(setup, ws) && NoneFailed(setup, ws)
    ensures Gather(ResultsOf(setup, ws)).Gathering?
    ensures forall identity :: identity in Gather(ResultsOf(setup, ws)).tree ==> Listed(setup.jobs, identity)
    ensures forall k :: 0 <= k < |ws| ==>
      var job := setup.jobs[ws[k]];
      && job.identity in Gather(ResultsOf(setup, ws)).tree
      && Gather(ResultsOf(setup, ws)).tree[job.identity] == FetchedConfig(job.path, setup.fetch(job.path).value)
  {
    if ws != [] {
      var before := ws[..|ws| - 1];
      var results := ResultsOf(setup, ws);
      assert results[..|results| - 1] == ResultsOf(setup, before);
      GatherContents(setup, before);
      var tree := Gather(results).tree;
      forall k | 0 <= k < |ws|
        ensures setup.jobs[ws[k]].identity in tree
        ensures tree[setup.jobs[ws[k]].identity]
             == FetchedConfig(setup.jobs[ws[k]].path, setup.fetch(setup.jobs[ws[k]].path).value)
      {
        if k < |before| {
          assert ws[k] == before[k];
        }
      }
    }
  }

  lemma {:induction false} GatherFailsIff(setup: Setup, ws: seq<nat>)
    requires AllJobs(setup, ws)
    ensures Gather(ResultsOf(setup, ws)).FetchFailed? <==> !NoneFailed(setup, ws)
  {
    if ws != [] {
      var before := ws[..|ws| - 1];
      var results := ResultsOf(setup, ws);
      assert results[..|results| - 1] == ResultsOf(setup, before);
      GatherFailsIff(setup, before);
      if k :| 0 <= k < |before| && Fails(setup, before[k]) {
        assert Fails(setup, ws[k]);
      } else if Fails(setup, ws[|ws| - 1]) {
      }
    }
  }

  /** Once the collector has returned without meeting an error, it has received every job. */
  lemma AllReceived(setup: Setup, s: State)
    requires Inv(setup, s) && s.returned && NoneFailed(setup, s.received)
    ensures Distinct(s.received) && AllJobs(setup, s.received)
    ensures forall w: nat :: w < |setup.jobs| ==> w in s.received
  {
    assert Arrived(s) == s.received;
    forall w: nat | w < |setup.jobs| ensures w in s.received {
      assert s.workers[w] == Finished;
    }
  }

  lemma ReceivedAreJobs(setup: Setup, s: State)
    requires Inv(setup, s)
    ensures AllJobs(setup, s.received)
  {
    forall k | 0 <= k < |s.received| ensures s.received[k] < |setup.jobs| {
      assert Arrived(s)[k] == s.received[k];
    }
  }

  /** What the collector returned, given the results in the order it received them. */
  ghost function Returned(setup: Setup, s: State): Gathered
    requires Inv(setup, s)
  {
    ReceivedAreJobs(setup, s);
    Gather(ResultsOf(setup, s.received))
  }

  ghost predicate AllFetched(setup: Setup) {
    forall w :: 0 <= w < |setup.jobs| ==> setup.fetch(setup.jobs[w].path).Some?
  }

  /** For every listing and every completion order, an error is returned exactly when some
      fetch failed; and when no two listed paths share an identity, the returned map is the
      commit's tree. */
  lemma ResultIndependentOfOrder(setup: Setup, states: seq<State>, actions: seq<Action>)
    requires IsRun(setup, states, actions) && states[|actions|].returned
    ensures Inv(setup, states[|actions|])
    ensures Returned(setup, states[|actions|]).FetchFailed? <==> !AllFetched(setup)
    ensures AllFetched(setup) && OnePathEach(setup.jobs) ==>
      Returned(setup, states[|actions|]) == Gathering(TreeOf(setup.jobs, setup.fetch))
  {
    var s := states[|actions|];
    RunInv(setup, states, actions, |actions|);
    ReceivedAreJobs(setup, s);
    GatherFailsIff(setup, s.received);
    if NoneFailed(setup, s.received) {
      AllReceived(setup, s);
      forall w: nat | w < |setup.jobs| ensures setup.fetch(setup.jobs[w].path).Some? {
        assert w in s.received;
        var k :| 0 <= k < |s.received| && s.received[k] == w;
        assert !Fails(setup, s.received[k]);
      }
      if OnePathEach(setup.jobs) {
        GatherContents(setup, s.received);
        TreeIsGathered(setup, s.received, Gather(ResultsOf(setup, s.received)).tree);
      }
    } else {
      var k :| 0 <= k < |s.received| && Fails(setup, s.received[k]);
      assert setup.fetch(setup.jobs[s.received[k]].path).None?;
    }
  }

  lemma TreeIsGathered(setup: Setup, ws: seq<nat>, tree: Tree)
    requires OnePathEach(setup.jobs) && AllFetched(setup)
    requires AllJobs(setup, ws) && forall w: nat :: w < |setup.jobs| ==> w in ws
    requires forall identity :: identity in tree ==> Listed(setup.jobs, identity)
    requires forall k :: 0 <= k < |ws| ==>
      var job := setup.jobs[ws[k]];
      job.identity in tree && tree[job.identity] == FetchedConfig(job.path, setup.fetch(job.path).value)
    ensures tree == TreeOf(setup.jobs, setup.fetch)
  {
    var expected := TreeOf(setup.jobs, setup.fetch);
    forall w: nat | w < |setup.jobs|
      ensures setup.jobs[w].identity in tree && tree[setup.jobs[w].identity] == expected[setup.jobs[w].identity]
    {
      assert w in ws;
      var k :| 0 <= k < |ws| && ws[k] == w;
      assert setup.jobs[ws[k]].identity in tree;
    }
  }

  // ----- the download, from the listing -----

  predicate Accepts(rootPath: string, file: string, identity: ConfigIdentity) {
    IdentityFromGitHubPath(rootPath, file) == Some(identity)
  }

  predicate ShareIdentity(rootPath: string, file1: string, file2: string) {
    && IdentityFromGitHubPath(rootPath, file1).Some?
    && IdentityFromGitHubPath(rootPath, file1) == IdentityFromGitHubPath(rootPath, file2)
  }

  /** No two accepted paths of the listing share an identity. */
  ghost predicate NoCollision(rootPath: string, files: seq<string>) {
    forall i, j :: 0 <= i < |files| && 0 <= j < |files| && ShareIdentity(rootPath, files[i], files[j]) ==>
      files[i] == files[j]
  }

  ghost predicate AcceptedFile(rootPath: string, files: seq<string>, identity: ConfigIdentity) {
    exists i :: 0 <= i < |files| && Accepts(rootPath, files[i], identity)
  }

  ghost predicate AcceptedFetched(rootPath: string, files: seq<string>, fetch: Fetch) {
    forall i :: 0 <= i < |files| && IdentityFromGitHubPath(rootPath, files[i]).Some? ==> fetch(files[i]).Some?
  }

  /** The goroutines of a listing. */
  function SetupOf(rootPath: string, files: seq<string>, fetch: Fetch): (setup: Setup)
    ensures setup.FitsChannel()
  {
    Setup(JobsOf(rootPath, files), |files|, fetch)
  }

  lemma ListingMakesJobs(rootPath: string, files: seq<string>, fetch: Fetch)
    ensures AllFetched(SetupOf(rootPath, files, fetch)) <==> AcceptedFetched(rootPath, files, fetch)
    ensures NoCollision(rootPath, files) ==> OnePathEach(JobsOf(rootPath, files))
    ensures forall identity :: AcceptedFile(rootPath, files, identity) <==> Listed(JobsOf(rootPath, files), identity)
  {
    var jobs := JobsOf(rootPath, files);
    forall w: nat | w < |jobs|
      ensures jobs[w].path in files && Accepts(rootPath, jobs[w].path, jobs[w].identity)
    {
      JobsComeFromFiles(rootPath, files, w);
    }
    forall i: nat | i < |files| && IdentityFromGitHubPath(rootPath, files[i]).Some?
      ensures Job(IdentityFromGitHubPath(rootPath, files[i]).value, files[i]) in jobs
    {
      AcceptedFileIsJob(rootPath, files, i);
    }
    if AllFetched(SetupOf(rootPath, files, fetch)) {
      forall i | 0 <= i < |files| && IdentityFromGitHubPath(rootPath, files[i]).Some? ensures fetch(files[i]).Some? {
        var w :| 0 <= w < |jobs| && jobs[w] == Job(IdentityFromGitHubPath(rootPath, files[i]).value, files[i]);
        assert fetch(jobs[w].path).Some?;
      }
    }
    forall identity ensures AcceptedFile(rootPath, files, identity) <==> Listed(jobs, identity) {
      if i :| 0 <= i < |files| && Accepts(rootPath, files[i], identity) {
        var w :| 0 <= w < |jobs| && jobs[w] == Job(identity, files[i]);
        assert jobs[w].identity == identity;
      }
    }
  }

  /** Whatever order the downloads finish in: an error exactly when some accepted file cannot be
      fetched; otherwise, when no two accepted paths share an identity, the map has exactly the
      identities of the accepted files, each with its own path and content. */
  lemma DownloadIsListing(rootPath: string, files: seq<string>, fetch: Fetch, states: seq<State>, actions: seq<Action>)
    requires IsRun(SetupOf(rootPath, files, fetch), states, actions) && states[|actions|].returned
    ensures
      var setup := SetupOf(rootPath, files, fetch);
      && Inv(setup, states[|actions|])
      && (Returned(setup, states[|actions|]).FetchFailed? <==> !AcceptedFetched(rootPath, files, fetch))
      && (AcceptedFetched(rootPath, files, fetch) && NoCollision(rootPath, files) ==>
            HoldsListing(rootPath, files, fetch, Returned(setup, states[|actions|]).tree))
  {
    var setup := SetupOf(rootPath, files, fetch);
    ListingMakesJobs(rootPath, files, fetch);
    ResultIndependentOfOrder(setup, states, actions);
    if AcceptedFetched(rootPath, files, fetch) && NoCollision(rootPath, files) {
      TreeHoldsListing(rootPath, files, fetch);
    }
  }

  ghost predicate HoldsListing(rootPath: string, files: seq<string>, fetch: Fetch, tree: Tree) {
    && (forall identity :: identity in tree <==> AcceptedFile(rootPath, files, identity))
    && (forall i :: 0 <= i < |files| ==> HoldsFile(rootPath, files[i], fetch, tree))
  }

  predicate HoldsFile(rootPath: string, file: string, fetch: Fetch, tree: Tree) {
    var identity := IdentityFromGitHubPath(rootPath, file);
    identity.Some? ==>
      identity.value in tree && fetch(file).Some? && tree[identity.value] == FetchedConfig(file, fetch(file).value)
  }

  lemma TreeHoldsListing(rootPath: string, files: seq<string>, fetch: Fetch)
    requires AcceptedFetched(rootPath, files, fetch) && NoCollision(rootPath, files)
    requires OnePathEach(JobsOf(rootPath, files)) && AllFetched(SetupOf(rootPath, files, fetch))
    requires forall identity :: AcceptedFile(rootPath, files, identity) <==> Listed(JobsOf(rootPath, files), identity)
    ensures HoldsListing(rootPath, files, fetch, TreeOf(JobsOf(rootPath, files), fetch))
  {
    var jobs := JobsOf(rootPath, files);
    var tree := TreeOf(jobs, fetch);
    forall i: nat | i < |files| ensures HoldsFile(rootPath, files[i], fetch, tree) {
      if IdentityFromGitHubPath(rootPath, files[i]).Some? {
        AcceptedFileIsJob(rootPath, files, i);
        var w :| 0 <= w < |jobs| && jobs[w] == Job(IdentityFromGitHubPath(rootPath, files[i]).value, files[i]);
        assert jobs[w].identity in tree;
      }
    }
    forall identity ensures identity in tree <==> AcceptedFile(rootPath, files, identity) {
      if Listed(jobs, identity) {
        var w :| 0 <= w < |jobs| && jobs[w].identity == identity;
        assert jobs[w].identity in tree;
      }
    }
  }

  // ----- when the order matters -----

  ghost predicate Returns(setup: Setup, states: seq<State>, actions: seq<Action>, r: Gathered) {
    && IsRun(setup, states, actions)
    && states[|actions|].returned && AllJobs(setup, states[|actions|].received)
    && r == Gather(ResultsOf(setup, states[|actions|].received))
  }

  ghost predicate SameForEveryOrder(setup: Setup) {
    forall states1, actions1, r1, states2, actions2, r2 ::
      Returns(setup, states1, actions1, r1) && Returns(setup, states2, actions2, r2) ==> r1 == r2
  }

  lemma OneMore(setup: Setup, states: seq<State>, actions: seq<Action>, a: Action)
    returns (states': seq<State>, actions': seq<Action>)
    requires IsRun(setup, states, actions)
    requires |states[|actions|].workers| == |setup.jobs| && Enabled(setup, states[|actions|], a)
    ensures IsRun(setup, states', actions') && states'[|actions'|] == Step(setup, states[|actions|], a)
  {
    states', actions' := states + [Step(setup, states[|actions|], a)], actions + [a];
    forall k | 0 <= k < |actions'|
      ensures |states'[k].workers| == |setup.jobs| && Enabled(setup, states'[k], actions'[k])
      ensures states'[k + 1] == Step(setup, states'[k], actions'[k])
    {
      if k < |actions| {
        assert actions'[k] == actions[k] && states'[k] == states[k] && states'[k + 1] == states[k + 1];
      }
    }
  }

  /** The first m workers fetch, the others wait. */
  predicate FirstFetch(setup: Setup, s: State, m: nat) {
    s == State(seq(|setup.jobs|, w => if w < m then Fetching else Waiting), m, [], false, [], false)
  }

  /** The eight slots can all be in use: of n files, min(n, 8) downloads can run at once. */
  lemma {:induction false} SlotsCanFill(setup: Setup, m: nat) returns (states: seq<State>, actions: seq<Action>)
    requires m <= |setup.jobs| && m <= 8
    ensures IsRun(setup, states, actions) && FirstFetch(setup, states[|actions|], m)
  {
    if m == 0 {
      states, actions := [Start(setup)], [];
    } else {
      states, actions := SlotsCanFill(setup, m - 1);
      states, actions := OneMore(setup, states, actions, TakeSlot(m - 1));
    }
  }

  /** The workers of ws have been served one after another. */
  predicate ServedInOrder(setup: Setup, s: State, ws: seq<nat>) {
    s == State(seq(|setup.jobs|, w => if w in ws then Finished else Waiting), 0, [], false, ws, false)
  }

  lemma {:induction false} ServeInOrder(setup: Setup, ws: seq<nat>) returns (states: seq<State>, actions: seq<Action>)
    requires setup.FitsChannel() && Distinct(ws) && AllJobs(setup, ws) && NoneFailed(setup, ws)
    ensures IsRun(setup, states, actions) && ServedInOrder(setup, states[|actions|], ws)
  {
    if ws == [] {
      states, actions := [Start(setup)], [];
    } else {
      var before, w := ws[..|ws| - 1], ws[|ws| - 1];
      states, actions := ServeInOrder(setup, before);
      assert w !in before;
      states, actions := OneMore(setup, states, actions, TakeSlot(w));
      states, actions := OneMore(setup, states, actions, Send(w));
      states, actions := OneMore(setup, states, actions, FreeSlot(w));
      states, actions := OneMore(setup, states, actions, Receive);
      assert ws == before + [w];
    }
  }

  /** Every order of all jobs is the order of some run. */
  lemma EveryOrderHappens(setup: Setup, ws: seq<nat>) returns (states: seq<State>, actions: seq<Action>)
    requires setup.FitsChannel() && AllFetched(setup)
    requires Distinct(ws) && AllJobs(setup, ws) && forall w: nat :: w < |setup.jobs| ==> w in ws
    ensures Returns(setup, states, actions, Gather(ResultsOf(setup, ws)))
  {
    states, actions := ServeInOrder(setup, ws);
    states, actions := OneMore(setup, states, actions, CloseChannel);
    states, actions := OneMore(setup, states, actions, Drained);
  }

  /** All jobs but two. */
  function Others(n: nat, i: nat, j: nat): (ws: seq<nat>)
    ensures forall k :: 0 <= k < |ws| ==> ws[k] < n && ws[k] != i && ws[k] != j
    ensures Distinct(ws)
    ensures forall w: nat :: w < n && w != i && w != j ==> w in ws
  {
    if n == 0 then []
    else if n - 1 == i || n - 1 == j then Others(n - 1, i, j)
    else Others(n - 1, i, j) + [n - 1]
  }

  /** The last arrival of an identity is the one that stays. */
  lemma LastArrivalStays(setup: Setup, ws: seq<nat>, w: nat)
    requires AllFetched(setup) && AllJobs(setup, ws) && w < |setup.jobs|
    ensures
      var job := setup.jobs[w];
      var r := Gather(ResultsOf(setup, ws + [w]));
      && r.Gathering? && job.identity in r.tree
      && r.tree[job.identity] == FetchedConfig(job.path, setup.fetch(job.path).value)
  {
    var results := ResultsOf(setup, ws + [w]);
    assert (ws + [w])[..|ws|] == ws;
    assert results[..|results| - 1] == ResultsOf(setup, ws);
    GatherFailsIff(setup, ws);
  }

  /** Two orders of all jobs that end with a colliding pair, one way and the other. */
  lemma PairAtEnd(setup: Setup, i: nat, j: nat)
    requires i != j && i < |setup.jobs| && j < |setup.jobs|
    ensures
      var ws := Others(|setup.jobs|, i, j) + [i] + [j];
      Distinct(ws) && AllJobs(setup, ws) && forall w: nat :: w < |setup.jobs| ==> w in ws
  {
    var others := Others(|setup.jobs|, i, j);
    assert Distinct(others + [i]);
    forall w: nat | w < |setup.jobs| ensures w in others + [i] + [j] {
      if w != i && w != j { assert w in others; }
    }
  }

  lemma SameOthers(n: nat, i: nat, j: nat)
    ensures Others(n, i, j) == Others(n, j, i)
  {
  }

  lemma CollisionDependsOnOrder(setup: Setup, i: nat, j: nat)
    requires setup.FitsChannel() && AllFetched(setup) && i < j < |setup.jobs|
    requires setup.jobs[i].identity == setup.jobs[j].identity && setup.jobs[i].path != setup.jobs[j].path
    ensures !SameForEveryOrder(setup)
  {
    var others := Others(|setup.jobs|, i, j);
    SameOthers(|setup.jobs|, i, j);
    PairAtEnd(setup, i, j);
    PairAtEnd(setup, j, i);
    var states1, actions1 := EveryOrderHappens(setup, others + [i] + [j]);
    var states2, actions2 := EveryOrderHappens(setup, others + [j] + [i]);
    LastArrivalStays(setup, others + [i], j);
    LastArrivalStays(setup, others + [j], i);
  }

  /** When every fetch succeeds, the map is the same for every completion order if and only
      if no two listed paths share an identity. */
  lemma OrderIndependentExactly(setup: Setup)
    requires setup.FitsChannel() && AllFetched(setup)
    ensures SameForEveryOrder(setup) <==> OnePathEach(setup.jobs)
  {
    if OnePathEach(setup.jobs) {
      forall states, actions, r | Returns(setup, states, actions, r)
        ensures r == Gathering(TreeOf(setup.jobs, setup.fetch))
      {
        ResultIndependentOfOrder(setup, states, actions);
      }
    } else {
      var i, j :| 0 <= i < j < |setup.jobs| && setup.jobs[i].identity == setup.jobs[j].identity
        && setup.jobs[i].path != setup.jobs[j].path;
      CollisionDependsOnOrder(setup, i, j);
    }
  }

  /** In whatever order the results of a listing arrive, also with colliding paths, every
      entry was accepted under its own identity for the listed root. */
  lemma {:induction false} TreeUnderRoot(rootPath: string, files: seq<string>, setup: Setup, ws: seq<nat>)
    requires setup.jobs == JobsOf(rootPath, files) && AllJobs(setup, ws)
    ensures Gather(ResultsOf(setup, ws)).Gathering? ==> UnderRoot(rootPath, Gather(ResultsOf(setup, ws)).tree)
  {
    if ws != [] {
      var before := ws[..|ws| - 1];
      var results := ResultsOf(setup, ws);
      assert results[..|results| - 1] == ResultsOf(setup, before);
      TreeUnderRoot(rootPath, files, setup, before);
      JobsComeFromFiles(rootPath, files, ws[|ws| - 1]);
    }
  }

  /** The snapshot reader of local mode: the label is the head commit and the view what the
      download of that very commit returned. None is a failing request for the head. */
  method LoadSnapshot(head: Option<string>, download: string -> Gathered) returns (snapshot: Option<CacheSnapshot>)
    ensures snapshot.Some? <==> head.Some? && download(head.value).Gathering?
    ensures snapshot.Some? ==>
      && snapshot.value.repoVersion == head.value
      && CachedView(snapshot.value.items) == ContentView(download(snapshot.value.repoVersion).tree)
  {
    if head.None? {
      return None;
    }
    var configs := download(head.value);
    if configs.FetchFailed? {
      return None;
    }
    var items: CachedItems := map[];
    var remaining := configs.tree.Keys;
    while remaining != {}
      invariant remaining <= configs.tree.Keys
      invariant items == map identity | identity in configs.tree && identity !in remaining ::
        CachedItem(configs.tree[identity].content, false)
      decreases remaining
    {
      var identity :| identity in remaining;
      items := items[identity := CachedItem(configs.tree[identity].content, false)];
      remaining := remaining - {identity};
    }
    snapshot := Some(CacheSnapshot(head.value, items));
  }
}
