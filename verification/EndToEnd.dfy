/** The whole service: the syncing instances and the chain of caches behind them. A commit of
    the leader protocol is a publication of the chain. */
module EndToEnd {
  import opened ConfigTypes
  import opened ConfigTable
  import L = LeaderProtocol
  import C = CacheChain
  import Conv = Convergence

  datatype System = System(leader: L.State, chain: C.State)

  datatype Action = Lead(lead: L.Action) | Serve(serve: C.Action)

  function Database(leader: L.State): C.Published {
    C.Published(leader.repoVersion, LiveView(leader.current))
  }

  ghost predicate Enabled(env: L.Env, s: System, a: Action) {
    && s.chain.history != []
    && match a
       case Lead(lead) => L.Enabled(env, s.leader, lead)
       case Serve(serve) => !serve.Publish? && C.Enabled(s.chain, serve)
  }

  /** What the chain sees of a step that leaves the leader protocol in state `next`. */
  function ChainAction(a: Action, next: L.State): C.Action {
    match a
    case Lead(lead) => if lead.op.Commit? then C.Publish(Database(next)) else C.Elsewhere
    case Serve(serve) => serve
  }

  ghost function Step(env: L.Env, s: System, a: Action): System
    requires Enabled(env, s, a)
  {
    var next := if a.Lead? then L.Step(env, s.leader, a.lead) else s.leader;
    System(next, C.Step(s.chain, ChainAction(a, next)))
  }

  /** A run from fresh tables and empty caches in which every transaction commits before another
      instance takes the lease. */
  ghost predicate GoodRun(env: L.Env, states: seq<System>, actions: seq<Action>) {
    && L.RepositoryOk(env)
    && |states| == |actions| + 1
    && L.Init(states[0].leader) && C.Init(states[0].chain)
    && (forall k {:trigger actions[k]} :: 0 <= k < |actions| ==> GoodStep(env, states[k], actions[k], states[k + 1]))
  }

  ghost predicate GoodStep(env: L.Env, s: System, a: Action, s': System) {
    && Enabled(env, s, a) && s' == Step(env, s, a)
    && (a.Lead? ==> L.HoldsLease(s.leader, a.lead))
  }

  /** Everything published is the tree of the commit it is named after. */
  ghost predicate PublishesTrees(env: L.Env, history: seq<C.Published>) {
    forall j :: 0 <= j < |history| ==>
      history[j] == C.NOTHING || history[j].view == ContentView(env.tree(history[j].version))
  }

  ghost predicate Inv(env: L.Env, s: System) {
    && L.Inv(env, s.leader) && C.Inv(s.chain)
    && C.Latest(s.chain) == Database(s.leader)
    && PublishesTrees(env, s.chain.history)
  }

  lemma StepInv(env: L.Env, s: System, a: Action, s': System)
    requires L.RepositoryOk(env) && Inv(env, s) && GoodStep(env, s, a, s')
    ensures Inv(env, s')
  {
    C.StepInv(s.chain, ChainAction(a, s'.leader));
    if a.Lead? {
      L.StepInv(env, s.leader, a.lead);
      if a.lead.op.Commit? {
        assert L.LocalOk(env, s.leader, a.lead.instance);
      }
    }
  }

  lemma {:induction false} RunInv(env: L.Env, states: seq<System>, actions: seq<Action>, k: nat)
    requires GoodRun(env, states, actions) && k <= |actions|
    ensures Inv(env, states[k])
  {
    if k == 0 {
      C.InitInv(states[0].chain);
    } else {
      RunInv(env, states, actions, k - 1);
      StepInv(env, states[k - 1], actions[k - 1], states[k]);
    }
  }

  /** The same step with the commit within ttl of its instance's last acquire or renewal. */
  ghost predicate InTimeStep(env: L.Env, s: System, a: Action, s': System) {
    && Enabled(env, s, a) && s' == Step(env, s, a)
    && (a.Lead? ==> L.InTime(s.leader, a.lead))
  }

  /** Committing in time makes a run good. */
  lemma {:induction false} InTimeRunIsGood(env: L.Env, states: seq<System>, actions: seq<Action>, k: nat)
    requires L.RepositoryOk(env) && |states| == |actions| + 1 && k <= |actions|
    requires L.Init(states[0].leader) && C.Init(states[0].chain)
    requires forall m {:trigger actions[m]} :: 0 <= m < |actions| ==> InTimeStep(env, states[m], actions[m], states[m + 1])
    ensures GoodRun(env, states[..k + 1], actions[..k])
  {
    var prefix, steps := states[..k + 1], actions[..k];
    if k > 0 {
      InTimeRunIsGood(env, states, actions, k - 1);
      RunInv(env, states[..k], actions[..k - 1], k - 1);
      var a := actions[k - 1];
      assert InTimeStep(env, states[k - 1], a, states[k]);
      if a.Lead? {
        L.InTimeHoldsLease(env, states[k - 1].leader, a.lead);
      }
      forall m | 0 <= m < k ensures GoodStep(env, prefix[m], steps[m], prefix[m + 1]) {
        if m < k - 1 {
          assert actions[..k - 1][m] == steps[m];
        }
      }
    }
  }

  /** The view is, as a whole, the tree of one commit, published no earlier than the label. */
  ghost predicate WholeTree(env: L.Env, history: seq<C.Published>, copy: C.Published) {
    exists i, j :: 0 <= i <= j < |history| && history[i].version == copy.version &&
      (if history[j] == C.NOTHING then copy.view == map[] else copy.view == ContentView(env.tree(history[j].version)))
  }

  lemma CopyIsWholeTree(env: L.Env, history: seq<C.Published>, copy: C.Published)
    requires PublishesTrees(env, history) && C.Coherent(history, copy)
    ensures WholeTree(env, history, copy)
  {
    var i, j :| 0 <= i <= j < |history| && history[i].version == copy.version && history[j].view == copy.view;
    assert history[j] == C.NOTHING || history[j].view == ContentView(env.tree(history[j].version));
  }

  /** The view is nothing, or the tree of one commit that was published. */
  ghost predicate TreeOfSomeCommit(env: L.Env, history: seq<C.Published>, view: View) {
    view == map[] ||
    exists j :: 0 <= j < |history| && history[j] != C.NOTHING && view == ContentView(env.tree(history[j].version))
  }

  /** Some server or some client shows this view. */
  ghost predicate Shows(s: C.State, view: View) {
    || (exists n :: 0 <= n < |s.readers| && s.readers[n].copy.view == view)
    || (exists c :: 0 <= c < |s.clients| && s.clients[c].copy.view == view)
  }

  /** No layer ever shows a mixture, whatever happens to any handler: at every moment each
      server and each client shows the whole tree of one published commit. */
  lemma EveryViewIsATree(env: L.Env, states: seq<System>, actions: seq<Action>, k: nat, view: View)
    requires GoodRun(env, states, actions) && k <= |actions|
    requires Shows(states[k].chain, view)
    ensures TreeOfSomeCommit(env, states[k].chain.history, view)
  {
    RunInv(env, states, actions, k);
    var s := states[k].chain;
    ShownIsPublished(s, view);
    var j :| 0 <= j < |s.history| && s.history[j].view == view;
    assert s.history[j] == C.NOTHING || s.history[j].view == ContentView(env.tree(s.history[j].version));
  }

  lemma ShownIsPublished(s: C.State, view: View)
    requires C.Inv(s) && Shows(s, view)
    ensures C.ViewPublished(s.history, view)
  {
    if n :| 0 <= n < |s.readers| && s.readers[n].copy.view == view {
      assert C.ReaderOk(s.history, s.readers[n]);
    } else {
      var c :| 0 <= c < |s.clients| && s.clients[c].copy.view == view;
      assert C.ClientOk(s.history, s.readers, s.clients[c]);
    }
  }

  /** A server's tree was published no earlier than its label; and unless the present version
      repeats with another tree in between, a copy labelled with it is exactly its tree. */
  lemma ServerCopyIsATree(env: L.Env, states: seq<System>, actions: seq<Action>, k: nat, n: nat)
    requires GoodRun(env, states, actions) && k <= |actions| && n < |states[k].chain.readers|
    ensures
      var copy := states[k].chain.readers[n].copy;
      && WholeTree(env, states[k].chain.history, copy)
      && (C.VersionsTell(states[k].chain.history) && copy.version == states[k].leader.repoVersion != "" ==>
            copy.view == ContentView(env.tree(states[k].leader.repoVersion)))
  {
    RunInv(env, states, actions, k);
    var s := states[k].chain;
    assert C.ReaderOk(s.history, s.readers[n]);
    LabelledCopyIsATree(env, states[k], s.readers[n].copy);
  }

  /** The same for a client, given that the handler of the response it holds was undisturbed. */
  lemma ClientCopyIsATree(env: L.Env, states: seq<System>, actions: seq<Action>, k: nat, c: nat)
    requires GoodRun(env, states, actions) && k <= |actions| && c < |states[k].chain.clients|
    requires HoldsUndisturbed(states, actions, k, c)
    ensures
      var copy := states[k].chain.clients[c].copy;
      && WholeTree(env, states[k].chain.history, copy)
      && (C.VersionsTell(states[k].chain.history) && copy.version == states[k].leader.repoVersion != "" ==>
            copy.view == ContentView(env.tree(states[k].leader.repoVersion)))
  {
    RunInv(env, states, actions, k);
    WholeRunIsAPath(env, states, actions);
    StateInChain(states, 0, k);
    StateInChain(states, 0, 0);
    C.ClientSkipIsSound(ChainStates(states, 0), ChainActions(states, actions, 0), k, c);
    LabelledCopyIsATree(env, states[k], states[k].chain.clients[c].copy);
  }

  lemma LabelledCopyIsATree(env: L.Env, s: System, copy: C.Published)
    requires Inv(env, s) && C.Coherent(s.chain.history, copy)
    ensures WholeTree(env, s.chain.history, copy)
    ensures C.VersionsTell(s.chain.history) && copy.version == s.leader.repoVersion != "" ==>
      copy.view == ContentView(env.tree(s.leader.repoVersion))
  {
    CopyIsWholeTree(env, s.chain.history, copy);
    if C.VersionsTell(s.chain.history) && copy.version == s.leader.repoVersion {
      C.LabelDecidesItems(s.chain.history, copy);
    }
  }

  /** The chain's part of a run is a path of the chain. */
  lemma WholeRunIsAPath(env: L.Env, states: seq<System>, actions: seq<Action>)
    requires GoodRun(env, states, actions)
    ensures C.IsPath(ChainStates(states, 0), ChainActions(states, actions, 0))
  {
    var chainStates, chainActions := ChainStates(states, 0), ChainActions(states, actions, 0);
    forall k | 0 <= k < |chainActions|
      ensures C.Enabled(chainStates[k], chainActions[k]) && chainStates[k + 1] == C.Step(chainStates[k], chainActions[k])
    {
      RunInv(env, states, actions, k);
      assert GoodStep(env, states[k], actions[k], states[k + 1]);
      StepInChain(states, actions, 0, k);
    }
  }

  // ----- convergence -----

  /** The chain's part of the run from step `from` on. */
  ghost function ChainStates(states: seq<System>, from: nat): (chain: seq<C.State>)
    requires from <= |states|
    ensures |chain| == |states| - from
  {
    seq(|states| - from, k requires 0 <= k < |states| - from => states[from + k].chain)
  }

  ghost function ChainActions(states: seq<System>, actions: seq<Action>, from: nat): (chain: seq<C.Action>)
    requires from <= |actions| == |states| - 1
    ensures |chain| == |actions| - from
  {
    seq(|actions| - from,
        k requires 0 <= k < |actions| - from => ChainAction(actions[from + k], states[from + k + 1].leader))
  }

  /** The last step of a successful sync to `head`: its commit, or the skip of an instance that
      has the lease. */
  ghost predicate SyncsTo(s: L.State, a: L.Action, head: string) {
    || (a.op.Commit? && a.instance in s.locals && s.locals[a.instance].phase.Diffed?
        && s.locals[a.instance].phase.head == head)
    || (L.Skips(s, a, head) && s.lock.owner == a.instance)
  }

  /** After the sync that ends at step p, GitHub keeps answering with the same head. */
  ghost predicate HeadStays(env: L.Env, states: seq<System>, actions: seq<Action>, p: nat, head: string) {
    && p < |actions| < |states|
    && actions[p].Lead? && SyncsTo(states[p].leader, actions[p].lead, head)
    && forall k :: p < k < |actions| && actions[k].Lead? && actions[k].lead.op.ReadHead? ==> actions[k].lead.op.head == head
  }

  ghost function HeadPublication(env: L.Env, head: string): C.Published {
    C.Published(head, ContentView(env.tree(head)))
  }

  /** The database is at the head's tree and nobody who has the lease can commit. */
  ghost predicate AtHead(env: L.Env, s: System, head: string) {
    L.Settled(env, s.leader, head) && Database(s.leader) == HeadPublication(env, head)
  }

  lemma SyncReachesHead(env: L.Env, s: System, a: Action, s': System, head: string)
    requires L.RepositoryOk(env) && Inv(env, s) && GoodStep(env, s, a, s')
    requires a.Lead? && SyncsTo(s.leader, a.lead, head)
    ensures AtHead(env, s', head)
  {
    assert L.LocalOk(env, s.leader, a.lead.instance);
    L.StepInv(env, s.leader, a.lead);
    if a.lead.op.Commit? {
      L.CommitSettles(env, s.leader, a.lead);
    } else {
      L.SkipSettles(env, s.leader, a.lead, head);
    }
  }

  lemma StepStaysAtHead(env: L.Env, s: System, a: Action, s': System, head: string)
    requires L.RepositoryOk(env) && Inv(env, s) && GoodStep(env, s, a, s') && AtHead(env, s, head)
    requires a.Lead? && a.lead.op.ReadHead? ==> a.lead.op.head == head
    ensures AtHead(env, s', head) && !ChainAction(a, s'.leader).Publish?
  {
    if a.Lead? {
      L.SettledStays(env, s.leader, a.lead, head);
    }
  }

  /** From that sync on the tables hold the head's tree and no sync changes them. */
  lemma {:induction false} TablesStayAtHead(
    env: L.Env, states: seq<System>, actions: seq<Action>, p: nat, head: string, k: nat)
    requires GoodRun(env, states, actions) && HeadStays(env, states, actions, p, head) && p < k <= |actions|
    ensures AtHead(env, states[k], head)
  {
    RunInv(env, states, actions, k - 1);
    assert GoodStep(env, states[k - 1], actions[k - 1], states[k]);
    if k == p + 1 {
      SyncReachesHead(env, states[p], actions[p], states[k], head);
    } else {
      TablesStayAtHead(env, states, actions, p, head, k - 1);
      StepStaysAtHead(env, states[k - 1], actions[k - 1], states[k], head);
    }
  }

  lemma StepIsCalm(env: L.Env, states: seq<System>, actions: seq<Action>, p: nat, head: string, m: nat)
    requires GoodRun(env, states, actions) && HeadStays(env, states, actions, p, head) && p < m < |actions|
    ensures
      var a := ChainAction(actions[m], states[m + 1].leader);
      && !a.Publish? && C.Enabled(states[m].chain, a) && states[m + 1].chain == C.Step(states[m].chain, a)
  {
    assert GoodStep(env, states[m], actions[m], states[m + 1]);
    TablesStayAtHead(env, states, actions, p, head, m);
    RunInv(env, states, actions, m);
    StepStaysAtHead(env, states[m], actions[m], states[m + 1], head);
  }

  lemma StateInChain(states: seq<System>, from: nat, m: nat)
    requires from <= m < |states|
    ensures ChainStates(states, from)[m - from] == states[m].chain
  {
    assert from + (m - from) == m;
  }

  lemma ActionInChain(states: seq<System>, actions: seq<Action>, from: nat, m: nat)
    requires from <= m < |actions| == |states| - 1
    ensures ChainActions(states, actions, from)[m - from] == ChainAction(actions[m], states[m + 1].leader)
  {
    assert from + (m - from) == m;
  }

  /** Step `from` + k of the run is step k of the chain's part. */
  lemma StepInChain(states: seq<System>, actions: seq<Action>, from: nat, k: nat)
    requires from + k < |actions| == |states| - 1
    ensures ChainStates(states, from)[k] == states[from + k].chain
    ensures ChainStates(states, from)[k + 1] == states[from + k + 1].chain
    ensures ChainActions(states, actions, from)[k] == ChainAction(actions[from + k], states[from + k + 1].leader)
  {
  }

  /** So the chain runs at that publication from then on. */
  lemma ChainIsCalm(env: L.Env, states: seq<System>, actions: seq<Action>, p: nat, head: string)
    requires GoodRun(env, states, actions) && HeadStays(env, states, actions, p, head)
    ensures Conv.Calm(ChainStates(states, p + 1), ChainActions(states, actions, p + 1), HeadPublication(env, head))
  {
    var chainStates := ChainStates(states, p + 1);
    var chainActions := ChainActions(states, actions, p + 1);
    FirstIsAt(env, states, actions, p, head);
    forall k | 0 <= k < |chainActions|
      ensures C.Enabled(chainStates[k], chainActions[k]) && chainStates[k + 1] == C.Step(chainStates[k], chainActions[k])
      ensures !chainActions[k].Publish?
    {
      StepIsCalm(env, states, actions, p, head, p + 1 + k);
      StepInChain(states, actions, p + 1, k);
    }
  }

  lemma FirstIsAt(env: L.Env, states: seq<System>, actions: seq<Action>, p: nat, head: string)
    requires GoodRun(env, states, actions) && HeadStays(env, states, actions, p, head)
    ensures Conv.At(ChainStates(states, p + 1)[0], HeadPublication(env, head))
  {
    RunInv(env, states, actions, p + 1);
    TablesStayAtHead(env, states, actions, p, head, p + 1);
    StateInChain(states, p + 1, p + 1);
  }

  /** Server n began a refresh at step `first`, after step `after`, and ended it by `last`, no
      query of it failing. */
  ghost predicate ServerRefresh(
    states: seq<System>, actions: seq<Action>, n: nat, after: nat, first: nat, last: nat)
  {
    && after < first < last <= |actions| < |states|
    && actions[first] == Serve(C.ReaderAct(n, C.CheckVersion))
    && (forall m {:trigger actions[m]} :: first < m < last ==>
          && actions[m] != Serve(C.ReaderAct(n, C.GiveUp))
          && n < |states[m].chain.readers| && !states[m].chain.readers[n].phase.Resting?)
    && n < |states[first].chain.readers|
    && n < |states[last].chain.readers| && states[last].chain.readers[n].phase.Resting?
  }

  ghost predicate ClientRefresh(states: seq<System>, actions: seq<Action>, c: nat, first: nat, last: nat) {
    && first < last <= |actions| < |states|
    && actions[first].Serve? && actions[first].serve.ClientAct?
    && actions[first].serve.c == c && actions[first].serve.cop.AskVersion?
    && (forall m {:trigger actions[m]} :: first < m < last ==>
          && actions[m] != Serve(C.ClientAct(c, C.RequestFails))
          && c < |states[m].chain.clients| && !states[m].chain.clients[c].phase.Quiet?)
    && c < |states[first].chain.clients|
    && c < |states[last].chain.clients| && states[last].chain.clients[c].phase.Quiet?
  }

  lemma ServerRefreshInChain(
    states: seq<System>, actions: seq<Action>, p: nat, n: nat, first: nat, last: nat)
    requires ServerRefresh(states, actions, n, p, first, last) && |states| == |actions| + 1
    ensures Conv.ReaderRefresh(
      ChainStates(states, p + 1), ChainActions(states, actions, p + 1), n, first - (p + 1), last - (p + 1))
  {
    var chainStates, chainActions := ChainStates(states, p + 1), ChainActions(states, actions, p + 1);
    StateInChain(states, p + 1, last);
    ActionInChain(states, actions, p + 1, first);
    forall i | first - (p + 1) < i < last - (p + 1)
      ensures chainActions[i] != C.ReaderAct(n, C.GiveUp)
      ensures n < |chainStates[i].readers| && !chainStates[i].readers[n].phase.Resting?
    {
      StateInChain(states, p + 1, p + 1 + i);
      ActionInChain(states, actions, p + 1, p + 1 + i);
      assert actions[p + 1 + i] != Serve(C.ReaderAct(n, C.GiveUp));
    }
  }

  lemma ClientRefreshInChain(states: seq<System>, actions: seq<Action>, p: nat, c: nat, first: nat, last: nat)
    requires ClientRefresh(states, actions, c, first, last) && |states| == |actions| + 1 && p < first
    ensures Conv.ClientRefresh(
      ChainStates(states, p + 1), ChainActions(states, actions, p + 1), c, first - (p + 1), last - (p + 1))
  {
    var chainStates, chainActions := ChainStates(states, p + 1), ChainActions(states, actions, p + 1);
    StateInChain(states, p + 1, last);
    ActionInChain(states, actions, p + 1, first);
    forall i | first - (p + 1) < i < last - (p + 1)
      ensures chainActions[i] != C.ClientAct(c, C.RequestFails)
      ensures c < |chainStates[i].clients| && !chainStates[i].clients[c].phase.Quiet?
    {
      StateInChain(states, p + 1, p + 1 + i);
      ActionInChain(states, actions, p + 1, p + 1 + i);
      assert actions[p + 1 + i] != Serve(C.ClientAct(c, C.RequestFails));
    }
  }

  /** A server that refreshes after the sync shows the head's tree from then on if and only if
      its copy was not mislabelled when it began; a mislabelled copy stays. */
  lemma ServerShowsHeadExactly(
    env: L.Env, states: seq<System>, actions: seq<Action>, p: nat, head: string, n: nat, first: nat, last: nat)
    requires GoodRun(env, states, actions) && HeadStays(env, states, actions, p, head)
    requires ServerRefresh(states, actions, n, p, first, last)
    ensures
      var h := HeadPublication(env, head);
      var begun := states[first].chain.readers[n].copy;
      if Conv.Mislabelled(h, begun) then states[last].chain.readers[n].copy == begun != h
      else ServerShows(h, states, n, last)
  {
    var h := HeadPublication(env, head);
    ChainIsCalm(env, states, actions, p, head);
    ServerRefreshInChain(states, actions, p, n, first, last);
    StateInChain(states, p + 1, first);
    StateInChain(states, p + 1, last);
    Conv.ReaderRefreshExactly(
      ChainStates(states, p + 1), ChainActions(states, actions, p + 1), h, n, first - (p + 1), last - (p + 1));
    if !Conv.Mislabelled(h, states[first].chain.readers[n].copy) {
      ServerGoesOnShowing(states, actions, p, h, n, last);
    }
  }

  /** The server has the publication at every state from step `from` on. */
  ghost predicate ServerShows(h: C.Published, states: seq<System>, n: nat, from: nat) {
    forall m :: from <= m < |states| ==>
      n < |states[m].chain.readers| && Conv.ReaderSettled(h, states[m].chain.readers[n])
  }

  lemma ServerGoesOnShowing(states: seq<System>, actions: seq<Action>, p: nat, h: C.Published, n: nat, from: nat)
    requires p < from <= |actions| == |states| - 1
    requires Conv.Calm(ChainStates(states, p + 1), ChainActions(states, actions, p + 1), h)
    requires n < |states[from].chain.readers| && Conv.ReaderSettled(h, states[from].chain.readers[n])
    ensures ServerShows(h, states, n, from)
  {
    StateInChain(states, p + 1, from);
    forall m | from <= m < |states|
      ensures n < |states[m].chain.readers| && Conv.ReaderSettled(h, states[m].chain.readers[n])
    {
      StateInChain(states, p + 1, m);
      Conv.SettledReaderStays(
        ChainStates(states, p + 1), ChainActions(states, actions, p + 1), h, n, from - (p + 1), m - (p + 1));
    }
  }

  /** Server n has ended an unfailed refresh by step q, begun after the sync with a copy that
      was not mislabelled. */
  ghost predicate ServerRefreshed(
    h: C.Published, states: seq<System>, actions: seq<Action>, n: nat, after: nat, until: nat)
  {
    exists first: nat, last: nat :: last <= until && CleanRefresh(h, states, actions, n, after, first, last)
  }

  ghost predicate CleanRefresh(
    h: C.Published, states: seq<System>, actions: seq<Action>, n: nat, after: nat, first: nat, last: nat)
  {
    ServerRefresh(states, actions, n, after, first, last) && !Conv.Mislabelled(h, states[first].chain.readers[n].copy)
  }

  ghost predicate AllServersRefreshed(
    h: C.Published, states: seq<System>, actions: seq<Action>, count: nat, after: nat, until: nat)
  {
    forall n: nat :: n < count ==> ServerRefreshed(h, states, actions, n, after, until)
  }

  lemma AllServersShow(env: L.Env, states: seq<System>, actions: seq<Action>, p: nat, head: string, q: nat)
    requires GoodRun(env, states, actions) && HeadStays(env, states, actions, p, head) && p < q <= |actions|
    requires AllServersRefreshed(HeadPublication(env, head), states, actions, |states[q].chain.readers|, p, q)
    ensures Conv.ReadersSettled(states[q].chain, HeadPublication(env, head))
  {
    var h := HeadPublication(env, head);
    forall n: nat | n < |states[q].chain.readers| ensures Conv.ReaderSettled(h, states[q].chain.readers[n]) {
      assert ServerRefreshed(h, states, actions, n, p, q);
      var b: nat, e: nat :| e <= q && CleanRefresh(h, states, actions, n, p, b, e);
      ServerShowsHeadExactly(env, states, actions, p, head, n, b, e);
    }
  }

  /** Once a sync has succeeded and the head stays: after every server has refreshed (by step
      q) and then the client has, the client's view is the head's tree, and stays it whatever
      later refreshes do and whatever is done to handlers, if and only if the client's copy was
      not mislabelled when it began; a mislabelled copy stays. */
  lemma HeadReachesClientExactly(
    env: L.Env, states: seq<System>, actions: seq<Action>, p: nat, head: string, q: nat, c: nat,
    first: nat, last: nat)
    requires GoodRun(env, states, actions) && HeadStays(env, states, actions, p, head)
    requires p < q <= first && q <= |actions|
    requires AllServersRefreshed(HeadPublication(env, head), states, actions, |states[q].chain.readers|, p, q)
    requires ClientRefresh(states, actions, c, first, last)
    ensures
      var h := HeadPublication(env, head);
      var begun := states[first].chain.clients[c].copy;
      if Conv.Mislabelled(h, begun) then states[last].chain.clients[c].copy == begun != h
      else ClientShows(h, states, c, last)
  {
    ChainIsCalm(env, states, actions, p, head);
    AllServersShow(env, states, actions, p, head, q);
    ClientShowsExactly(states, actions, p, HeadPublication(env, head), q, c, first, last);
  }

  ghost predicate ClientShows(h: C.Published, states: seq<System>, c: nat, from: nat) {
    forall m :: from <= m < |states| ==> c < |states[m].chain.clients| && states[m].chain.clients[c].copy == h
  }

  lemma ClientShowsExactly(
    states: seq<System>, actions: seq<Action>, p: nat, h: C.Published, q: nat, c: nat, first: nat, last: nat)
    requires p < |actions| == |states| - 1 && p < q <= first
    requires Conv.Calm(ChainStates(states, p + 1), ChainActions(states, actions, p + 1), h)
    requires ClientRefresh(states, actions, c, first, last)
    requires Conv.ReadersSettled(states[q].chain, h)
    ensures
      var begun := states[first].chain.clients[c].copy;
      if Conv.Mislabelled(h, begun) then states[last].chain.clients[c].copy == begun != h
      else ClientShows(h, states, c, last)
  {
    var chainStates, chainActions := ChainStates(states, p + 1), ChainActions(states, actions, p + 1);
    ClientRefreshInChain(states, actions, p, c, first, last);
    StateInChain(states, p + 1, q);
    StateInChain(states, p + 1, first);
    StateInChain(states, p + 1, last);
    Conv.SettledReadersStay(chainStates, chainActions, h, q - (p + 1), first - (p + 1));
    Conv.SettledReadersStay(chainStates, chainActions, h, q - (p + 1), last - (p + 1));
    Conv.ClientRefreshExactly(chainStates, chainActions, h, c, first - (p + 1), last - (p + 1));
    if !Conv.Mislabelled(h, states[first].chain.clients[c].copy) {
      ClientGoesOnShowing(states, actions, p, h, c, last);
    }
  }

  lemma ClientGoesOnShowing(states: seq<System>, actions: seq<Action>, p: nat, h: C.Published, c: nat, from: nat)
    requires p < from <= |actions| == |states| - 1
    requires Conv.Calm(ChainStates(states, p + 1), ChainActions(states, actions, p + 1), h)
    requires Conv.ReadersSettled(states[from].chain, h)
    requires c < |states[from].chain.clients| && Conv.ClientSettled(h, states[from].chain.clients[c])
    ensures ClientShows(h, states, c, from)
  {
    StateInChain(states, p + 1, from);
    forall m | from <= m < |states|
      ensures c < |states[m].chain.clients| && states[m].chain.clients[c].copy == h
    {
      StateInChain(states, p + 1, m);
      Conv.SettledClientStays(
        ChainStates(states, p + 1), ChainActions(states, actions, p + 1), h, c, from - (p + 1), m - (p + 1));
    }
  }

  // ----- when the versions tell -----

  /** A client that holds the response of an undisturbed handler, if any. */
  ghost predicate HoldsUndisturbed(states: seq<System>, actions: seq<Action>, k: nat, c: nat)
    requires k <= |actions| == |states| - 1
  {
    C.CopyUndisturbed(ChainStates(states, 0), ChainActions(states, actions, 0), k, c)
  }

  /** When the published versions tell, no server is mislabelled, and no such client. */
  lemma ToldCopiesAreClean(env: L.Env, states: seq<System>, actions: seq<Action>, k: nat, h: C.Published)
    requires GoodRun(env, states, actions) && k <= |actions| && Conv.At(states[k].chain, h)
    requires C.VersionsTell(states[k].chain.history)
    ensures forall n :: 0 <= n < |states[k].chain.readers| ==> !Conv.Mislabelled(h, states[k].chain.readers[n].copy)
    ensures forall c :: 0 <= c < |states[k].chain.clients| && HoldsUndisturbed(states, actions, k, c) ==>
      !Conv.Mislabelled(h, states[k].chain.clients[c].copy)
  {
    var s := states[k].chain;
    WholeRunIsAPath(env, states, actions);
    StateInChain(states, 0, k);
    StateInChain(states, 0, 0);
    forall n | 0 <= n < |s.readers| ensures !Conv.Mislabelled(h, s.readers[n].copy) {
      C.ReaderSkipIsSound(ChainStates(states, 0), ChainActions(states, actions, 0), k, n);
    }
    forall c | 0 <= c < |s.clients| && HoldsUndisturbed(states, actions, k, c)
      ensures !Conv.Mislabelled(h, s.clients[c].copy)
    {
      C.ClientSkipIsSound(ChainStates(states, 0), ChainActions(states, actions, 0), k, c);
    }
  }

  lemma {:induction false} HistoryStays(
    env: L.Env, states: seq<System>, actions: seq<Action>, p: nat, head: string, k: nat)
    requires GoodRun(env, states, actions) && HeadStays(env, states, actions, p, head) && p < k <= |actions|
    ensures states[k].chain.history == states[p + 1].chain.history
    ensures Conv.At(states[k].chain, HeadPublication(env, head))
  {
    RunInv(env, states, actions, k);
    TablesStayAtHead(env, states, actions, p, head, k);
    if k > p + 1 {
      HistoryStays(env, states, actions, p, head, k - 1);
      StepIsCalm(env, states, actions, p, head, k - 1);
    }
  }

  ghost predicate ServersRefresh(states: seq<System>, actions: seq<Action>, count: nat, after: nat, until: nat) {
    forall n: nat :: n < count ==> SomeRefresh(states, actions, n, after, until)
  }

  ghost predicate SomeRefresh(states: seq<System>, actions: seq<Action>, n: nat, after: nat, until: nat) {
    exists first: nat, last: nat :: last <= until && ServerRefresh(states, actions, n, after, first, last)
  }

  lemma ToldServersRefreshed(env: L.Env, states: seq<System>, actions: seq<Action>, p: nat, head: string, n: nat, q: nat)
    requires GoodRun(env, states, actions) && HeadStays(env, states, actions, p, head)
    requires ToldAfter(states, p) && SomeRefresh(states, actions, n, p, q)
    ensures ServerRefreshed(HeadPublication(env, head), states, actions, n, p, q)
  {
    var h := HeadPublication(env, head);
    var b: nat, e: nat :| e <= q && ServerRefresh(states, actions, n, p, b, e);
    HistoryStays(env, states, actions, p, head, b);
    ToldCopiesAreClean(env, states, actions, b, h);
    assert CleanRefresh(h, states, actions, n, p, b, e);
  }

  /** By the end of the sync the published versions tell. */
  ghost predicate ToldAfter(states: seq<System>, p: nat) {
    p + 1 < |states| && states[p + 1].chain.history != [] && C.VersionsTell(states[p + 1].chain.history)
  }

  /** So with versions that tell, a client that holds the response of an undisturbed handler
      always shows the head after such refreshes. */
  lemma HeadReachesClient(
    env: L.Env, states: seq<System>, actions: seq<Action>, p: nat, head: string, q: nat, c: nat,
    first: nat, last: nat)
    requires GoodRun(env, states, actions) && HeadStays(env, states, actions, p, head)
    requires p < q <= first && q <= |actions| && ToldAfter(states, p)
    requires ServersRefresh(states, actions, |states[q].chain.readers|, p, q)
    requires ClientRefresh(states, actions, c, first, last) && HoldsUndisturbed(states, actions, first, c)
    ensures ClientShows(HeadPublication(env, head), states, c, last)
  {
    var h := HeadPublication(env, head);
    forall n: nat | n < |states[q].chain.readers| ensures ServerRefreshed(h, states, actions, n, p, q) {
      assert SomeRefresh(states, actions, n, p, q);
      ToldServersRefreshed(env, states, actions, p, head, n, q);
    }
    HistoryStays(env, states, actions, p, head, first);
    ToldCopiesAreClean(env, states, actions, first, h);
    HeadReachesClientExactly(env, states, actions, p, head, q, c, first, last);
  }
}
