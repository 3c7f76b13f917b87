/** The chain of version-gated caches as a step relation. The database publishes (version,
    view) pairs. Readers copy it: they are the refreshers of the servers
    (server/cache_refresher.go over server/store.go), and also clients on MySQL, which take
    the same steps (client_sdk/client.go over client_sdk/store.go) and are asked by nobody.
    HTTP clients copy from readers. Each of the two reads behind a snapshot is one step. */
module CacheChain {
  import opened ConfigTypes

  datatype Published = Published(version: string, view: View)

  /** A refresh: read the version, and if it differs read the label, the items, install. */
  datatype ReaderPhase =
    | Resting
    | VersionRead(remote: string)
    | LabelRead(label_: string)
    | ItemsRead(pair: Published)

  datatype Reader = Reader(copy: Published, phase: ReaderPhase)

  /** A client's refresh: ask some server for its version, and if it differs ask some server
      for a snapshot, whose handler reads the items first and the version second. */
  datatype ClientPhase =
    | Quiet
    | VersionGot(remote: string)
    | HandlerItems(server: nat, view: View)
    | ResponseGot(pair: Published)

  datatype HttpClient = HttpClient(copy: Published, phase: ClientPhase)

  datatype State = State(history: seq<Published>, readers: seq<Reader>, clients: seq<HttpClient>)

  datatype ReaderOp = CheckVersion | KeepCopy | ReadLabel | LoadAtStart | ReadItems | Install | GiveUp

  datatype ClientOp =
    | AskVersion(server: nat)
    | KeepView
    | AskSnapshot(server: nat)
    | AskAtStart(server: nat)
    | ReadVersion
    | ApplySnapshot
    | RequestFails

  /** Elsewhere is a step outside the chain, such as a sync step that commits nothing. */
  datatype Action =
    | Publish(pair: Published)
    | Elsewhere
    | ReaderAct(n: nat, rop: ReaderOp)
    | ClientAct(c: nat, cop: ClientOp)

  function Latest(s: State): Published
    requires s.history != []
  {
    s.history[|s.history| - 1]
  }

  predicate ReaderEnabled(r: Reader, op: ReaderOp) {
    match op
    case CheckVersion => r.phase.Resting?
    case KeepCopy => r.phase.VersionRead? && r.phase.remote == r.copy.version
    case ReadLabel => r.phase.VersionRead? && r.phase.remote != r.copy.version
    case LoadAtStart => r.phase.Resting?
    case ReadItems => r.phase.LabelRead?
    case Install => r.phase.ItemsRead?
    case GiveUp => !r.phase.Resting?
  }

  function ReaderStep(r: Reader, op: ReaderOp, db: Published): Reader
    requires ReaderEnabled(r, op)
  {
    match op
    case CheckVersion => r.(phase := VersionRead(db.version))
    case KeepCopy => r.(phase := Resting)
    case ReadLabel => r.(phase := LabelRead(db.version))
    case LoadAtStart => r.(phase := LabelRead(db.version))
    case ReadItems => r.(phase := ItemsRead(Published(r.phase.label_, db.view)))
    case Install => Reader(r.phase.pair, Resting)
    case GiveUp => r.(phase := Resting)
  }

  predicate ClientEnabled(readers: seq<Reader>, c: HttpClient, op: ClientOp) {
    match op
    case AskVersion(n) => c.phase.Quiet? && n < |readers|
    case KeepView => c.phase.VersionGot? && c.phase.remote == c.copy.version
    case AskSnapshot(n) => c.phase.VersionGot? && c.phase.remote != c.copy.version && n < |readers|
    case AskAtStart(n) => c.phase.Quiet? && n < |readers|
    case ReadVersion => c.phase.HandlerItems? && c.phase.server < |readers|
    case ApplySnapshot => c.phase.ResponseGot?
    case RequestFails => !c.phase.Quiet?
  }

  function ClientStep(readers: seq<Reader>, c: HttpClient, op: ClientOp): HttpClient
    requires ClientEnabled(readers, c, op)
  {
    match op
    case AskVersion(n) => c.(phase := VersionGot(readers[n].copy.version))
    case KeepView => c.(phase := Quiet)
    case AskSnapshot(n) => c.(phase := HandlerItems(n, readers[n].copy.view))
    case AskAtStart(n) => c.(phase := HandlerItems(n, readers[n].copy.view))
    case ReadVersion => c.(phase := ResponseGot(Published(readers[c.phase.server].copy.version, c.phase.view)))
    case ApplySnapshot => HttpClient(c.phase.pair, Quiet)
    case RequestFails => c.(phase := Quiet)
  }

  predicate Enabled(s: State, a: Action) {
    && s.history != []
    && match a
       case Publish(_) => true
       case Elsewhere => true
       case ReaderAct(n, op) => n < |s.readers| && ReaderEnabled(s.readers[n], op)
       case ClientAct(c, op) => c < |s.clients| && ClientEnabled(s.readers, s.clients[c], op)
  }

  function Step(s: State, a: Action): State
    requires Enabled(s, a)
  {
    match a
    case Publish(pair) => s.(history := s.history + [pair])
    case Elsewhere => s
    case ReaderAct(n, op) => s.(readers := s.readers[n := ReaderStep(s.readers[n], op, Latest(s))])
    case ClientAct(c, op) => s.(clients := s.clients[c := ClientStep(s.readers, s.clients[c], op)])
  }

  const NOTHING := Published("", map[])

  /** Nothing synced, nothing cached. */
  predicate Init(s: State) {
    && s.history == [NOTHING]
    && (forall n :: 0 <= n < |s.readers| ==> s.readers[n].copy == NOTHING && s.readers[n].phase.Resting?)
    && (forall c :: 0 <= c < |s.clients| ==> s.clients[c].copy == NOTHING && s.clients[c].phase.Quiet?)
  }

  ghost predicate IsPath(states: seq<State>, actions: seq<Action>) {
    && |states| == |actions| + 1
    && forall k {:trigger actions[k]} :: 0 <= k < |actions| ==> Enabled(states[k], actions[k]) && states[k + 1] == Step(states[k], actions[k])
  }

  /** When the handler reads the label, the server still serves the view it has listed: no
      Replace in between, or none that changed the view. */
  predicate HandlerUndisturbed(s: State, a: Action) {
    a.ClientAct? && a.cop.ReadVersion? && Enabled(s, a) ==>
      var phase := s.clients[a.c].phase;
      s.readers[phase.server].copy.view == phase.view
  }

  /** The last response that the client got by step k came from an undisturbed handler. */
  ghost predicate ResponseUndisturbed(states: seq<State>, actions: seq<Action>, k: nat, c: nat)
    requires k <= |actions| <= |states|
  {
    k > 0 ==>
      if actions[k - 1] == ClientAct(c, ReadVersion) then HandlerUndisturbed(states[k - 1], actions[k - 1])
      else ResponseUndisturbed(states, actions, k - 1, c)
  }

  /** So did the response that the client's copy at step k is, if it has installed one. */
  ghost predicate CopyUndisturbed(states: seq<State>, actions: seq<Action>, k: nat, c: nat)
    requires k <= |actions| <= |states|
  {
    k > 0 ==>
      if actions[k - 1] == ClientAct(c, ApplySnapshot) then ResponseUndisturbed(states, actions, k - 1, c)
      else CopyUndisturbed(states, actions, k - 1, c)
  }

  // ----- what every cached pair is -----

  /** The label is a published version, the items were published with it or later. */
  ghost predicate Coherent(history: seq<Published>, pair: Published) {
    exists i, j :: 0 <= i <= j < |history| && history[i].version == pair.version && history[j].view == pair.view
  }

  ghost predicate Known(history: seq<Published>, version: string) {
    exists i :: 0 <= i < |history| && history[i].version == version
  }

  ghost predicate ReaderOk(history: seq<Published>, r: Reader) {
    && Coherent(history, r.copy)
    && (r.phase.LabelRead? ==> Known(history, r.phase.label_))
    && (r.phase.ItemsRead? ==> Coherent(history, r.phase.pair))
  }

  ghost predicate ViewPublished(history: seq<Published>, view: View) {
    exists j :: 0 <= j < |history| && history[j].view == view
  }

  /** Whatever its label, the client shows one publication. */
  ghost predicate ClientOk(history: seq<Published>, readers: seq<Reader>, c: HttpClient) {
    && ViewPublished(history, c.copy.view)
    && (c.phase.HandlerItems? ==> c.phase.server < |readers| && ViewPublished(history, c.phase.view))
    && (c.phase.ResponseGot? ==> ViewPublished(history, c.phase.pair.view))
  }

  ghost predicate Inv(s: State) {
    && s.history != []
    && (forall n :: 0 <= n < |s.readers| ==> ReaderOk(s.history, s.readers[n]))
    && (forall c :: 0 <= c < |s.clients| ==> ClientOk(s.history, s.readers, s.clients[c]))
  }

  lemma InitInv(s: State)
    requires Init(s)
    ensures Inv(s)
  {
    assert s.history[0] == NOTHING;
  }

  lemma HistoryGrows(history: seq<Published>, more: Published, pair: Published)
    ensures Coherent(history, pair) ==> Coherent(history + [more], pair)
    ensures Known(history, pair.version) ==> Known(history + [more], pair.version)
  {
    if i, j :| 0 <= i <= j < |history| && history[i].version == pair.version && history[j].view == pair.view {
      assert (history + [more])[i] == history[i] && (history + [more])[j] == history[j];
    }
    if i :| 0 <= i < |history| && history[i].version == pair.version {
      assert (history + [more])[i] == history[i];
    }
  }

  lemma ReaderStepOk(history: seq<Published>, r: Reader, op: ReaderOp)
    requires history != [] && ReaderOk(history, r) && ReaderEnabled(r, op)
    ensures ReaderOk(history, ReaderStep(r, op, history[|history| - 1]))
  {
    if op.ReadItems? {
      var i :| 0 <= i < |history| && history[i].version == r.phase.label_;
      assert i <= |history| - 1;
    }
  }

  lemma ClientStepOk(history: seq<Published>, readers: seq<Reader>, c: HttpClient, op: ClientOp)
    requires forall n :: 0 <= n < |readers| ==> ReaderOk(history, readers[n])
    requires ClientOk(history, readers, c) && ClientEnabled(readers, c, op)
    ensures ClientOk(history, readers, ClientStep(readers, c, op))
  {
    if op.AskSnapshot? || op.AskAtStart? {
      assert ReaderOk(history, readers[op.server]);
    }
  }

  /** No step needs a condition: readers do not depend on clients, and no client's items are
      ever put together from two publications. */
  lemma StepInv(s: State, a: Action)
    requires Inv(s) && Enabled(s, a)
    ensures Inv(Step(s, a))
  {
    var s' := Step(s, a);
    match a
    case Publish(pair) =>
      forall n | 0 <= n < |s.readers| ensures ReaderOk(s'.history, s.readers[n]) {
        HistoryGrowsReader(s.history, pair, s.readers[n]);
      }
      forall c | 0 <= c < |s.clients| ensures ClientOk(s'.history, s.readers, s.clients[c]) {
        HistoryGrowsClient(s.history, pair, s.readers, s.clients[c]);
      }
    case Elsewhere =>
    case ReaderAct(n, op) =>
      ReaderStepOk(s.history, s.readers[n], op);
      forall c | 0 <= c < |s.clients| ensures ClientOk(s.history, s'.readers, s.clients[c]) {
        assert ClientOk(s.history, s.readers, s.clients[c]);
      }
    case ClientAct(c, op) =>
      ClientStepOk(s.history, s.readers, s.clients[c], op);
  }

  lemma ViewStaysPublished(history: seq<Published>, more: Published, view: View)
    requires ViewPublished(history, view)
    ensures ViewPublished(history + [more], view)
  {
    var j :| 0 <= j < |history| && history[j].view == view;
    assert (history + [more])[j] == history[j];
  }

  lemma HistoryGrowsClient(history: seq<Published>, more: Published, readers: seq<Reader>, c: HttpClient)
    requires ClientOk(history, readers, c)
    ensures ClientOk(history + [more], readers, c)
  {
    ViewStaysPublished(history, more, c.copy.view);
    match c.phase
    case HandlerItems(_, view) => ViewStaysPublished(history, more, view);
    case ResponseGot(pair) => ViewStaysPublished(history, more, pair.view);
    case _ =>
  }

  lemma HistoryGrowsReader(history: seq<Published>, more: Published, r: Reader)
    requires ReaderOk(history, r)
    ensures ReaderOk(history + [more], r)
  {
    HistoryGrows(history, more, r.copy);
    match r.phase
    case LabelRead(version) => HistoryGrows(history, more, Published(version, map[]));
    case ItemsRead(pair) => HistoryGrows(history, more, pair);
    case _ =>
  }

  lemma {:induction false} PathInv(states: seq<State>, actions: seq<Action>, k: nat)
    requires IsPath(states, actions) && k <= |actions| && Inv(states[0])
    ensures Inv(states[k])
  {
    if k > 0 {
      PathInv(states, actions, k - 1);
      StepInv(states[k - 1], actions[k - 1]);
    }
  }

  /** What one client holds, given only its own handlers. */
  ghost predicate ClientCoherent(states: seq<State>, actions: seq<Action>, k: nat, c: nat)
    requires k <= |actions| < |states|
  {
    && c < |states[k].clients|
    && (CopyUndisturbed(states, actions, k, c) ==> Coherent(states[k].history, states[k].clients[c].copy))
    && (ResponseUndisturbed(states, actions, k, c) && states[k].clients[c].phase.ResponseGot? ==>
         Coherent(states[k].history, states[k].clients[c].phase.pair))
  }

  lemma {:induction false} PathClientCoherent(states: seq<State>, actions: seq<Action>, k: nat, c: nat)
    requires IsPath(states, actions) && Init(states[0]) && k <= |actions| && c < |states[0].clients|
    ensures ClientCoherent(states, actions, k, c)
  {
    if k == 0 {
      assert states[0].history[0] == NOTHING;
    } else {
      PathClientCoherent(states, actions, k - 1, c);
      InitInv(states[0]);
      PathInv(states, actions, k - 1);
      var s, a := states[k - 1], actions[k - 1];
      if a.Publish? {
        HistoryGrows(s.history, a.pair, s.clients[c].copy);
        if s.clients[c].phase.ResponseGot? { HistoryGrows(s.history, a.pair, s.clients[c].phase.pair); }
      } else if a == ClientAct(c, ReadVersion) {
        assert ReaderOk(s.history, s.readers[s.clients[c].phase.server]);
      }
    }
  }

  // ----- skipping a reload is sound -----

  /** Whatever was published from any occurrence of the present version on has the present
      view. Versions that do not repeat are one way to have it. */
  ghost predicate VersionsTell(history: seq<Published>)
    requires history != []
  {
    var present := history[|history| - 1];
    forall i, j :: 0 <= i <= j < |history| && history[i].version == present.version ==> history[j].view == present.view
  }

  ghost predicate NonRepeating(history: seq<Published>) {
    forall i, j :: 0 <= i < j < |history| ==> history[i].version != history[j].version
  }

  lemma NonRepeatingVersionsTell(history: seq<Published>)
    requires history != [] && NonRepeating(history)
    ensures VersionsTell(history)
  {
    var last := |history| - 1;
    forall i, j | 0 <= i <= j < |history| && history[i].version == history[last].version
      ensures history[j].view == history[last].view
    {
      assert i == last;
    }
  }

  /** A pair labelled with the present version has the present items. */
  lemma LabelDecidesItems(history: seq<Published>, pair: Published)
    requires history != [] && VersionsTell(history) && Coherent(history, pair)
    requires pair.version == history[|history| - 1].version
    ensures pair == history[|history| - 1]
  {
    var i, j :| 0 <= i <= j < |history| && history[i].version == pair.version && history[j].view == pair.view;
  }

  /** Whoever finds its label to be the present version serves the present items. */
  predicate LabelIsSound(s: State, copy: Published)
    requires s.history != []
  {
    copy.version == Latest(s).version ==> copy.view == Latest(s).view
  }

  /** At every moment of every run, however the two-step reads interleave with commits and
      whatever happens to any handler: the copy of a server, or of a client on MySQL, is
      (version i, items j) with i <= j, and one whose label is the present version serves
      exactly the present items. */
  lemma ReaderSkipIsSound(states: seq<State>, actions: seq<Action>, k: nat, n: nat)
    requires IsPath(states, actions) && Init(states[0]) && k <= |actions| && n < |states[k].readers|
    ensures states[k].history != [] && Coherent(states[k].history, states[k].readers[n].copy)
    ensures VersionsTell(states[k].history) ==> LabelIsSound(states[k], states[k].readers[n].copy)
  {
    InitInv(states[0]);
    PathInv(states, actions, k);
    assert ReaderOk(states[k].history, states[k].readers[n]);
    if VersionsTell(states[k].history) && states[k].readers[n].copy.version == Latest(states[k]).version {
      LabelDecidesItems(states[k].history, states[k].readers[n].copy);
    }
  }

  lemma {:induction false} PathKeepsClients(states: seq<State>, actions: seq<Action>, k: nat)
    requires IsPath(states, actions) && k <= |actions|
    ensures |states[k].clients| == |states[0].clients| && |states[k].readers| == |states[0].readers|
  {
    if k > 0 {
      PathKeepsClients(states, actions, k - 1);
      assert states[k] == Step(states[k - 1], actions[k - 1]);
    }
  }

  /** The same for an HTTP client, given only that the handler of the response it holds was
      undisturbed; and always, its items are those of one publication. */
  lemma ClientSkipIsSound(states: seq<State>, actions: seq<Action>, k: nat, c: nat)
    requires IsPath(states, actions) && Init(states[0]) && k <= |actions| && c < |states[k].clients|
    ensures states[k].history != [] && ViewPublished(states[k].history, states[k].clients[c].copy.view)
    ensures CopyUndisturbed(states, actions, k, c) ==> Coherent(states[k].history, states[k].clients[c].copy)
    ensures CopyUndisturbed(states, actions, k, c) && VersionsTell(states[k].history) ==>
      LabelIsSound(states[k], states[k].clients[c].copy)
  {
    InitInv(states[0]);
    PathInv(states, actions, k);
    PathKeepsClients(states, actions, k);
    PathClientCoherent(states, actions, k, c);
    assert ClientOk(states[k].history, states[k].readers, states[k].clients[c]);
    if CopyUndisturbed(states, actions, k, c) && VersionsTell(states[k].history)
       && states[k].clients[c].copy.version == Latest(states[k]).version {
      LabelDecidesItems(states[k].history, states[k].clients[c].copy);
    }
  }

  // ----- the handler's two reads -----

  /** Between a client's snapshot request at step b and the label's read at step e. */
  ghost predicate HandlerAtWork(states: seq<State>, actions: seq<Action>, c: nat, n: nat, b: nat, e: nat) {
    && IsPath(states, actions) && b < e < |actions|
    && (actions[b] == ClientAct(c, AskSnapshot(n)) || actions[b] == ClientAct(c, AskAtStart(n)))
    && forall m :: b < m < e ==> !(actions[m].ClientAct? && actions[m].c == c)
  }

  /** If that server installs nothing meanwhile, the handler is undisturbed. */
  lemma {:induction false} NoReplaceUndisturbed(
    states: seq<State>, actions: seq<Action>, c: nat, n: nat, b: nat, e: nat)
    requires HandlerAtWork(states, actions, c, n, b, e)
    requires forall m :: b < m < e ==> actions[m] != ReaderAct(n, Install)
    ensures c < |states[e].clients| && n < |states[e].readers|
    ensures states[e].clients[c].phase == HandlerItems(n, states[e].readers[n].copy.view)
    ensures actions[e] == ClientAct(c, ReadVersion) ==> HandlerUndisturbed(states[e], actions[e])
  {
    assert Enabled(states[e - 1], actions[e - 1]) && states[e] == Step(states[e - 1], actions[e - 1]);
    if e > b + 1 {
      NoReplaceUndisturbed(states, actions, c, n, b, e - 1);
      var a := actions[e - 1];
      assert a != ReaderAct(n, Install) && !(a.ClientAct? && a.c == c);
    }
  }

  /** Over a server at the present publication the condition is exact: the response is a
      coherent pair, and its label is sound, if and only if the handler was undisturbed. */
  lemma ResponseCoherentExactly(s: State, c: nat)
    requires Inv(s) && VersionsTell(s.history) && Enabled(s, ClientAct(c, ReadVersion))
    requires s.readers[s.clients[c].phase.server].copy == Latest(s)
    ensures
      var a := ClientAct(c, ReadVersion);
      var response := Step(s, a).clients[c].phase.pair;
      && response.version == Latest(s).version
      && (Coherent(s.history, response) <==> HandlerUndisturbed(s, a))
      && (response.view == Latest(s).view <==> HandlerUndisturbed(s, a))
  {
    var response := Step(s, ClientAct(c, ReadVersion)).clients[c].phase.pair;
    if Coherent(s.history, response) {
      LabelDecidesItems(s.history, response);
    }
    if response == Latest(s) {
      assert s.history[|s.history| - 1] == response;
    }
  }
}
