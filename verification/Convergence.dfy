/** What the chain does once the database stays at one publication: every refresh step of an
    unsettled layer brings it closer, and a layer that has refreshed shows the publication
    from then on. */
module Convergence {
  import opened ConfigTypes
  import opened CacheChain

  /** The database is at h. */
  predicate At(s: State, h: Published) {
    s.history != [] && Latest(s) == h
  }

  /** Other items under the present version: whoever holds such a copy takes it for current. */
  predicate Mislabelled(h: Published, copy: Published) {
    copy.version == h.version && copy.view != h.view
  }

  // ----- readers -----

  /** The refresh in flight, if any, has read only the present publication. */
  predicate FreshPhase(h: Published, r: Reader) {
    match r.phase
    case Resting => true
    case VersionRead(remote) => remote == h.version
    case LabelRead(version) => version == h.version
    case ItemsRead(pair) => pair == h
  }

  predicate ReaderSettled(h: Published, r: Reader) {
    r.copy == h && FreshPhase(h, r)
  }

  /** Own steps a reader still needs at most. */
  function ReaderRank(h: Published, r: Reader): nat {
    if ReaderSettled(h, r) then 0 else StepsLeft(r.phase) + (if FreshPhase(h, r) then 0 else 4)
  }

  function StepsLeft(phase: ReaderPhase): nat {
    match phase
    case ItemsRead(_) => 1
    case LabelRead(_) => 2
    case VersionRead(_) => 3
    case Resting => 4
  }

  /** Neither the reader's copy nor what it is about to install is mislabelled. */
  predicate ReaderSane(h: Published, r: Reader) {
    !Mislabelled(h, r.copy) && (r.phase.ItemsRead? ==> !Mislabelled(h, r.phase.pair))
  }

  lemma ReaderStepCloser(h: Published, r: Reader, op: ReaderOp)
    requires ReaderSane(h, r) && ReaderEnabled(r, op) && !op.GiveUp?
    ensures
      var r' := ReaderStep(r, op, h);
      && ReaderSane(h, r')
      && if ReaderSettled(h, r) then ReaderSettled(h, r') else ReaderRank(h, r') < ReaderRank(h, r)
  {
  }

  function RankSum(h: Published, readers: seq<Reader>): nat {
    if readers == [] then 0 else RankSum(h, readers[..|readers| - 1]) + ReaderRank(h, readers[|readers| - 1])
  }

  lemma {:induction false} RankSumUpdate(h: Published, readers: seq<Reader>, n: nat, r: Reader)
    requires n < |readers|
    ensures RankSum(h, readers[n := r]) == RankSum(h, readers) - ReaderRank(h, readers[n]) + ReaderRank(h, r)
  {
    var last := |readers| - 1;
    if n == last {
      assert readers[n := r][..last] == readers[..last];
    } else {
      assert readers[n := r][..last] == readers[..last][n := r];
      RankSumUpdate(h, readers[..last], n, r);
    }
  }

  lemma {:induction false} RankSumZero(h: Published, readers: seq<Reader>)
    ensures RankSum(h, readers) == 0 <==> forall n :: 0 <= n < |readers| ==> ReaderSettled(h, readers[n])
  {
    if readers != [] {
      var before := readers[..|readers| - 1];
      RankSumZero(h, before);
      if RankSum(h, readers) == 0 {
        forall n | 0 <= n < |readers| ensures ReaderSettled(h, readers[n]) {
          if n < |before| { assert readers[n] == before[n]; }
        }
      }
    }
  }

  // ----- clients, once every reader is settled -----

  ghost predicate ReadersSettled(s: State, h: Published) {
    forall n :: 0 <= n < |s.readers| ==> ReaderSettled(h, s.readers[n])
  }

  predicate FreshClientPhase(h: Published, c: HttpClient) {
    match c.phase
    case Quiet => true
    case VersionGot(remote) => remote == h.version
    case HandlerItems(_, view) => view == h.view
    case ResponseGot(pair) => pair == h
  }

  predicate ClientSettled(h: Published, c: HttpClient) {
    c.copy == h && FreshClientPhase(h, c)
  }

  function ClientRank(h: Published, c: HttpClient): nat {
    if ClientSettled(h, c) then 0 else ClientStepsLeft(c.phase) + (if FreshClientPhase(h, c) then 0 else 4)
  }

  function ClientStepsLeft(phase: ClientPhase): nat {
    match phase
    case ResponseGot(_) => 1
    case HandlerItems(_, _) => 2
    case VersionGot(_) => 3
    case Quiet => 4
  }

  /** The same for a client over servers that all show h: the items it has been listed, if any,
      are the present ones. */
  predicate ClientSane(h: Published, c: HttpClient) {
    && !Mislabelled(h, c.copy)
    && (c.phase.HandlerItems? ==> c.phase.view == h.view)
    && (c.phase.ResponseGot? ==> !Mislabelled(h, c.phase.pair))
  }

  lemma ClientStepCloser(h: Published, readers: seq<Reader>, c: HttpClient, op: ClientOp)
    requires forall n :: 0 <= n < |readers| ==> ReaderSettled(h, readers[n])
    requires ClientSane(h, c) && ClientEnabled(readers, c, op) && !op.RequestFails?
    ensures
      var c' := ClientStep(readers, c, op);
      && ClientSane(h, c')
      && if ClientSettled(h, c) then ClientSettled(h, c') else ClientRank(h, c') < ClientRank(h, c)
  {
    if c.phase.HandlerItems? {
      assert ReaderSettled(h, readers[c.phase.server]);
    }
  }

  function ClientRankSum(h: Published, clients: seq<HttpClient>): nat {
    if clients == [] then 0 else ClientRankSum(h, clients[..|clients| - 1]) + ClientRank(h, clients[|clients| - 1])
  }

  lemma {:induction false} ClientRankSumUpdate(h: Published, clients: seq<HttpClient>, n: nat, c: HttpClient)
    requires n < |clients|
    ensures ClientRankSum(h, clients[n := c]) == ClientRankSum(h, clients) - ClientRank(h, clients[n]) + ClientRank(h, c)
  {
    var last := |clients| - 1;
    if n == last {
      assert clients[n := c][..last] == clients[..last];
    } else {
      assert clients[n := c][..last] == clients[..last][n := c];
      ClientRankSumUpdate(h, clients[..last], n, c);
    }
  }

  // ----- the measure of the whole chain -----

  predicate Fails(a: Action) {
    (a.ReaderAct? && a.rop.GiveUp?) || (a.ClientAct? && a.cop.RequestFails?)
  }

  /** The step belongs to a layer that does not show the publication yet: to an unsettled
      reader or, when no reader is unsettled, to an unsettled client. */
  ghost predicate Productive(s: State, h: Published, a: Action)
    requires Enabled(s, a)
  {
    match a
    case ReaderAct(n, _) => !ReaderSettled(h, s.readers[n])
    case ClientAct(c, _) => ReadersSettled(s, h) && !ClientSettled(h, s.clients[c])
    case Publish(_) => false
    case Elsewhere => false
  }

  ghost predicate ReadersSane(s: State, h: Published) {
    forall n :: 0 <= n < |s.readers| ==> ReaderSane(h, s.readers[n])
  }

  /** Published versions that tell leave no reader mislabelled. */
  lemma ToldReadersAreSane(s: State)
    requires Inv(s) && VersionsTell(s.history)
    ensures ReadersSane(s, Latest(s))
  {
    forall n | 0 <= n < |s.readers| ensures ReaderSane(Latest(s), s.readers[n]) {
      var r := s.readers[n];
      assert ReaderOk(s.history, r);
      if r.copy.version == Latest(s).version {
        LabelDecidesItems(s.history, r.copy);
      }
      if r.phase.ItemsRead? && r.phase.pair.version == Latest(s).version {
        LabelDecidesItems(s.history, r.phase.pair);
      }
    }
  }

  lemma ReaderActConverges(s: State, h: Published, n: nat, op: ReaderOp)
    requires At(s, h) && Enabled(s, ReaderAct(n, op)) && ReadersSane(s, h) && !op.GiveUp?
    ensures
      var s' := Step(s, ReaderAct(n, op));
      && ReadersSane(s', h)
      && (if ReaderSettled(h, s.readers[n]) then RankSum(h, s'.readers) == RankSum(h, s.readers)
          else RankSum(h, s'.readers) < RankSum(h, s.readers))
      && (forall m :: 0 <= m < |s.readers| && ReaderSettled(h, s.readers[m]) ==> ReaderSettled(h, s'.readers[m]))
  {
    ReaderStepCloser(h, s.readers[n], op);
    RankSumUpdate(h, s.readers, n, ReaderStep(s.readers[n], op, h));
  }

  lemma ClientActConverges(s: State, h: Published, c: nat, op: ClientOp)
    requires ReadersSettled(s, h) && !op.RequestFails?
    requires Enabled(s, ClientAct(c, op)) && ClientSane(h, s.clients[c])
    ensures
      var clients' := Step(s, ClientAct(c, op)).clients;
      && ClientSane(h, clients'[c])
      && if ClientSettled(h, s.clients[c]) then ClientRankSum(h, clients') == ClientRankSum(h, s.clients)
         else ClientRankSum(h, clients') < ClientRankSum(h, s.clients)
  {
    ClientStepCloser(h, s.readers, s.clients[c], op);
    ClientRankSumUpdate(h, s.clients, c, ClientStep(s.readers, s.clients[c], op));
  }

  /** While the database stays at h, with no reader mislabelled: a successful step never moves
      the readers away from h; a productive one lowers the pair (readers' rank, clients' rank)
      lexicographically; and with all readers settled the clients' rank never rises either. */
  lemma EveryStepConverges(s: State, h: Published, a: Action)
    requires At(s, h) && Enabled(s, a) && !a.Publish? && !Fails(a)
    requires ReadersSane(s, h)
    requires a.ClientAct? && ReadersSettled(s, h) ==> ClientSane(h, s.clients[a.c])
    ensures At(Step(s, a), h) && ReadersSane(Step(s, a), h)
    ensures RankSum(h, Step(s, a).readers) <= RankSum(h, s.readers)
    ensures ReadersSettled(s, h) ==>
      && ReadersSettled(Step(s, a), h) && ClientRankSum(h, Step(s, a).clients) <= ClientRankSum(h, s.clients)
      && (a.ClientAct? ==> ClientSane(h, Step(s, a).clients[a.c]))
    ensures Productive(s, h, a) ==>
      || RankSum(h, Step(s, a).readers) < RankSum(h, s.readers)
      || (RankSum(h, Step(s, a).readers) == RankSum(h, s.readers)
          && ClientRankSum(h, Step(s, a).clients) < ClientRankSum(h, s.clients))
  {
    match a
    case Elsewhere =>
    case ReaderAct(n, op) =>
      ReaderActConverges(s, h, n, op);
    case ClientAct(c, op) =>
      if ReadersSettled(s, h) {
        ClientActConverges(s, h, c, op);
      }
  }

  /** The readers' rank is zero exactly when every reader shows the publication for good. */
  lemma ReadersAtZero(s: State, h: Published)
    ensures RankSum(h, s.readers) == 0 <==> ReadersSettled(s, h)
    ensures ReadersSettled(s, h) ==> forall n :: 0 <= n < |s.readers| ==> s.readers[n].copy == h
  {
    RankSumZero(h, s.readers);
  }

  // ----- schedules -----

  /** A stretch without a publication; refreshes may fail and handlers be disturbed. */
  ghost predicate Calm(states: seq<State>, actions: seq<Action>, h: Published) {
    && IsPath(states, actions) && At(states[0], h)
    && forall k {:trigger actions[k]} :: 0 <= k < |actions| ==> !actions[k].Publish?
  }

  lemma {:induction false} CalmStaysAt(states: seq<State>, actions: seq<Action>, h: Published, k: nat)
    requires Calm(states, actions, h) && k <= |actions|
    ensures At(states[k], h)
    ensures |states[k].readers| == |states[0].readers| && |states[k].clients| == |states[0].clients|
  {
    if k > 0 {
      CalmStaysAt(states, actions, h, k - 1);
      assert !actions[k - 1].Publish? && states[k] == Step(states[k - 1], actions[k - 1]);
    }
  }

  // ----- one refresh of a reader -----

  /** Reader n begins a refresh at step b and ends it at k, no query of it failing. */
  ghost predicate ReaderRefresh(states: seq<State>, actions: seq<Action>, n: nat, b: nat, k: nat) {
    && b < k <= |actions| < |states|
    && actions[b] == ReaderAct(n, CheckVersion)
    && (forall m {:trigger actions[m]} :: b < m < k ==>
          actions[m] != ReaderAct(n, GiveUp) && n < |states[m].readers| && !states[m].readers[n].phase.Resting?)
    && n < |states[k].readers| && states[k].readers[n].phase.Resting?
  }

  /** The reader in a refresh that it began at h with this copy. */
  predicate InFlight(h: Published, begun: Published, r: Reader) {
    match r.phase
    case Resting => r.copy == if begun.version == h.version then begun else h
    case VersionRead(remote) => remote == h.version && r.copy == begun
    case LabelRead(version) => version == h.version != begun.version && r.copy == begun
    case ItemsRead(pair) => pair == h && h.version != begun.version && r.copy == begun
  }

  lemma InFlightStep(s: State, h: Published, n: nat, begun: Published, a: Action)
    requires At(s, h) && Enabled(s, a) && !a.Publish? && a != ReaderAct(n, GiveUp) && n < |s.readers|
    requires (a == ReaderAct(n, CheckVersion) && s.readers[n].copy == begun)
          || (!s.readers[n].phase.Resting? && InFlight(h, begun, s.readers[n]))
    ensures InFlight(h, begun, Step(s, a).readers[n])
  {
  }

  lemma {:induction false} RefreshInFlight(
    states: seq<State>, actions: seq<Action>, h: Published, n: nat, b: nat, k: nat, m: nat)
    requires Calm(states, actions, h) && ReaderRefresh(states, actions, n, b, k) && b < m <= k
    ensures n < |states[b].readers| && n < |states[m].readers|
    ensures InFlight(h, states[b].readers[n].copy, states[m].readers[n])
  {
    CalmStaysAt(states, actions, h, m - 1);
    assert Enabled(states[b], actions[b]);
    if m > b + 1 {
      RefreshInFlight(states, actions, h, n, b, k, m - 1);
    }
    InFlightStep(states[m - 1], h, n, states[b].readers[n].copy, actions[m - 1]);
  }

  /** A refresh begun after the publication that does not fail leaves the reader showing it if
      and only if the reader's copy was not mislabelled; and a mislabelled copy stays. */
  lemma ReaderRefreshExactly(states: seq<State>, actions: seq<Action>, h: Published, n: nat, b: nat, k: nat)
    requires Calm(states, actions, h) && ReaderRefresh(states, actions, n, b, k)
    ensures n < |states[b].readers|
    ensures ReaderSettled(h, states[k].readers[n]) <==> !Mislabelled(h, states[b].readers[n].copy)
    ensures Mislabelled(h, states[b].readers[n].copy) ==> states[k].readers[n].copy == states[b].readers[n].copy
  {
    RefreshInFlight(states, actions, h, n, b, k, k);
  }

  lemma SettledReaderStep(s: State, h: Published, n: nat, a: Action)
    requires At(s, h) && Enabled(s, a) && !a.Publish?
    requires n < |s.readers| && ReaderSettled(h, s.readers[n])
    ensures ReaderSettled(h, Step(s, a).readers[n])
  {
  }

  /** From then on it serves it, whatever else refreshes or fails to. */
  lemma {:induction false} SettledReaderStays(states: seq<State>, actions: seq<Action>, h: Published, n: nat, b: nat, k: nat)
    requires Calm(states, actions, h) && b <= k <= |actions|
    requires n < |states[b].readers| && ReaderSettled(h, states[b].readers[n])
    ensures n < |states[k].readers| && ReaderSettled(h, states[k].readers[n])
  {
    if k > b {
      SettledReaderStays(states, actions, h, n, b, k - 1);
      CalmStaysAt(states, actions, h, k - 1);
      SettledReaderStep(states[k - 1], h, n, actions[k - 1]);
    }
  }

  lemma SettledReadersStay(states: seq<State>, actions: seq<Action>, h: Published, b: nat, k: nat)
    requires Calm(states, actions, h) && b <= k <= |actions| && ReadersSettled(states[b], h)
    ensures ReadersSettled(states[k], h)
  {
    CalmStaysAt(states, actions, h, b);
    CalmStaysAt(states, actions, h, k);
    forall n | 0 <= n < |states[k].readers| ensures ReaderSettled(h, states[k].readers[n]) {
      SettledReaderStays(states, actions, h, n, b, k);
    }
  }

  // ----- one refresh of a client -----

  /** Client c begins a refresh at step b and ends it at k, no request of it failing. */
  ghost predicate ClientRefresh(states: seq<State>, actions: seq<Action>, c: nat, b: nat, k: nat) {
    && b < k <= |actions| < |states|
    && actions[b].ClientAct? && actions[b].c == c && actions[b].cop.AskVersion?
    && (forall m {:trigger actions[m]} :: b < m < k ==>
          actions[m] != ClientAct(c, RequestFails) && c < |states[m].clients| && !states[m].clients[c].phase.Quiet?)
    && c < |states[k].clients| && states[k].clients[c].phase.Quiet?
  }

  predicate ClientInFlight(h: Published, begun: Published, c: HttpClient) {
    match c.phase
    case Quiet => c.copy == if begun.version == h.version then begun else h
    case VersionGot(remote) => remote == h.version && c.copy == begun
    case HandlerItems(_, view) => view == h.view && h.version != begun.version && c.copy == begun
    case ResponseGot(pair) => pair == h && h.version != begun.version && c.copy == begun
  }

  lemma ClientInFlightStep(s: State, h: Published, c: nat, begun: Published, a: Action)
    requires ReadersSettled(s, h) && Enabled(s, a) && a != ClientAct(c, RequestFails) && c < |s.clients|
    requires (a.ClientAct? && a.c == c && a.cop.AskVersion? && s.clients[c].copy == begun)
          || (!s.clients[c].phase.Quiet? && ClientInFlight(h, begun, s.clients[c]))
    ensures ClientInFlight(h, begun, Step(s, a).clients[c])
  {
    if s.clients[c].phase.HandlerItems? && a == ClientAct(c, ReadVersion) {
      assert ReaderSettled(h, s.readers[s.clients[c].phase.server]);
    }
  }

  /** Step m of the stretch as a step of the chain. */
  lemma CalmStep(states: seq<State>, actions: seq<Action>, h: Published, m: nat)
    requires Calm(states, actions, h) && m < |actions|
    ensures At(states[m], h) && !actions[m].Publish?
    ensures Enabled(states[m], actions[m]) && states[m + 1] == Step(states[m], actions[m])
    ensures |states[m].clients| == |states[0].clients| && |states[m].readers| == |states[0].readers|
  {
    CalmStaysAt(states, actions, h, m);
  }

  lemma ClientInFlightNext(
    states: seq<State>, actions: seq<Action>, h: Published, c: nat, begun: Published, m: nat)
    requires Calm(states, actions, h) && m < |actions| && ReadersSettled(states[m], h)
    requires actions[m] != ClientAct(c, RequestFails) && c < |states[m].clients|
    requires (actions[m].ClientAct? && actions[m].c == c && actions[m].cop.AskVersion? && states[m].clients[c].copy == begun)
          || (!states[m].clients[c].phase.Quiet? && ClientInFlight(h, begun, states[m].clients[c]))
    ensures c < |states[m + 1].clients| && ClientInFlight(h, begun, states[m + 1].clients[c])
  {
    CalmStep(states, actions, h, m);
    ClientInFlightStep(states[m], h, c, begun, actions[m]);
  }

  lemma {:induction false} ClientRefreshInFlight(
    states: seq<State>, actions: seq<Action>, h: Published, c: nat, b: nat, k: nat, m: nat)
    requires Calm(states, actions, h) && ClientRefresh(states, actions, c, b, k) && b < m <= k
    requires ReadersSettled(states[b], h)
    ensures c < |states[b].clients| && c < |states[m].clients|
    ensures ClientInFlight(h, states[b].clients[c].copy, states[m].clients[c])
  {
    CalmStep(states, actions, h, b);
    if m > b + 1 {
      ClientRefreshInFlight(states, actions, h, c, b, k, m - 1);
    }
    SettledReadersStay(states, actions, h, b, m - 1);
    ClientInFlightNext(states, actions, h, c, states[b].clients[c].copy, m - 1);
  }

  /** Once every server shows the publication, a client refresh begun afterwards that does not
      fail leaves the client showing it if and only if the client's copy was not mislabelled;
      and a mislabelled copy stays. */
  lemma ClientRefreshExactly(states: seq<State>, actions: seq<Action>, h: Published, c: nat, b: nat, k: nat)
    requires Calm(states, actions, h) && ClientRefresh(states, actions, c, b, k) && ReadersSettled(states[b], h)
    ensures c < |states[b].clients|
    ensures ClientSettled(h, states[k].clients[c]) <==> !Mislabelled(h, states[b].clients[c].copy)
    ensures Mislabelled(h, states[b].clients[c].copy) ==> states[k].clients[c].copy == states[b].clients[c].copy
  {
    ClientRefreshInFlight(states, actions, h, c, b, k, k);
  }

  lemma SettledClientStep(s: State, h: Published, c: nat, a: Action)
    requires ReadersSettled(s, h) && Enabled(s, a) && c < |s.clients| && ClientSettled(h, s.clients[c])
    ensures ClientSettled(h, Step(s, a).clients[c])
  {
    if a.ClientAct? && a.cop.ReadVersion? {
      assert ReaderSettled(h, s.readers[s.clients[a.c].phase.server]);
    }
    if a.ClientAct? && (a.cop.AskVersion? || a.cop.AskSnapshot? || a.cop.AskAtStart?) {
      assert ReaderSettled(h, s.readers[a.cop.server]);
    }
  }

  /** And every later refresh keeps it, successful or not. */
  lemma {:induction false} SettledClientStays(states: seq<State>, actions: seq<Action>, h: Published, c: nat, b: nat, k: nat)
    requires Calm(states, actions, h) && b <= k <= |actions| && ReadersSettled(states[b], h)
    requires c < |states[b].clients| && ClientSettled(h, states[b].clients[c])
    ensures c < |states[k].clients| && ClientSettled(h, states[k].clients[c])
  {
    if k > b {
      SettledClientStays(states, actions, h, c, b, k - 1);
      SettledReadersStay(states, actions, h, b, k - 1);
      SettledClientStep(states[k - 1], h, c, actions[k - 1]);
    }
  }
}
