/** What goes wrong without the two conditions of the chain theorem, and that the condition on
    the published versions is exact. */
module ChainAnomalies {
  import opened ConfigTypes
  import opened CacheChain
  import opened Convergence

  const KEY := ConfigIdentity("n", "k")
  const A := Published("a", map[KEY := "1"])
  const B := Published("b", map[KEY := "2"])

  lemma OneStep(states: seq<State>, actions: seq<Action>, a: Action) returns (states': seq<State>, actions': seq<Action>)
    requires IsPath(states, actions) && Enabled(states[|actions|], a)
    ensures IsPath(states', actions') && states'[0] == states[0]
    ensures states'[|actions'|] == Step(states[|actions|], a)
  {
    states', actions' := states + [Step(states[|actions|], a)], actions + [a];
  }

  /** A branch that is pushed forward and back: the label is read at the first "a", the items
      at "b", and when "a" returns the reader takes its copy for current for good. */
  lemma RepeatedVersionHidesStaleItems() returns (states: seq<State>, actions: seq<Action>)
    ensures IsPath(states, actions) && Init(states[0])
    ensures
      var s := states[|actions|];
      && |s.readers| == 1 && s.history == [NOTHING, A, B, A]
      && s.readers[0].copy.version == Latest(s).version
      && s.readers[0].copy.view != Latest(s).view
  {
    var start := State([NOTHING], [Reader(NOTHING, Resting)], []);
    states, actions := [start], [];
    states, actions := OneStep(states, actions, Publish(A));
    states, actions := OneStep(states, actions, ReaderAct(0, CheckVersion));
    states, actions := OneStep(states, actions, ReaderAct(0, ReadLabel));
    states, actions := OneStep(states, actions, Publish(B));
    states, actions := OneStep(states, actions, ReaderAct(0, ReadItems));
    states, actions := OneStep(states, actions, ReaderAct(0, Install));
    states, actions := OneStep(states, actions, Publish(A));
    assert A.view[KEY] != B.view[KEY];
  }

  // ----- the versions' condition is exact -----

  /** The labels at the end of the run are sound: of all servers and clients on MySQL, and of
      the HTTP clients that hold the response of an undisturbed handler. */
  ghost predicate EndsSound(states: seq<State>, actions: seq<Action>)
    requires IsPath(states, actions) && states[|actions|].history != []
  {
    var s := states[|actions|];
    && (forall n :: 0 <= n < |s.readers| ==> LabelIsSound(s, s.readers[n].copy))
    && (forall c :: 0 <= c < |s.clients| && CopyUndisturbed(states, actions, |actions|, c) ==>
         LabelIsSound(s, s.clients[c].copy))
  }

  /** Every run that publishes this history ends with sound labels. */
  ghost predicate AlwaysSound(history: seq<Published>)
    requires history != []
  {
    forall states: seq<State>, actions: seq<Action> ::
      IsPath(states, actions) && Init(states[0]) && states[|actions|].history == history ==>
        EndsSound(states, actions)
  }

  lemma {:induction false} PublishAll(states: seq<State>, actions: seq<Action>, more: seq<Published>)
    returns (states': seq<State>, actions': seq<Action>)
    requires IsPath(states, actions) && states[|actions|].history != []
    ensures IsPath(states', actions') && states'[0] == states[0]
    ensures states'[|actions'|] == states[|actions|].(history := states[|actions|].history + more)
  {
    if more == [] {
      states', actions' := states, actions;
      assert states[|actions|].history + more == states[|actions|].history;
    } else {
      var last := |more| - 1;
      states', actions' := PublishAll(states, actions, more[..last]);
      states', actions' := OneStep(states', actions', Publish(more[last]));
      assert states[|actions|].history + more[..last] + [more[last]] == states[|actions|].history + more;
    }
  }

  /** A reader takes the label at publication i. */
  lemma TakeLabelAt(history: seq<Published>, i: nat) returns (states: seq<State>, actions: seq<Action>)
    requires history != [] && history[0] == NOTHING && i < |history|
    ensures IsPath(states, actions) && Init(states[0])
    ensures states[|actions|] == State(history[..i + 1], [Reader(NOTHING, LabelRead(history[i].version))], [])
  {
    var start := State([NOTHING], [Reader(NOTHING, Resting)], []);
    states, actions := [start], [];
    states, actions := PublishAll(states, actions, history[1..i + 1]);
    assert states[|actions|].history == history[..i + 1];
    states, actions := TakeLabel(states, actions);
  }

  /** And the items at publication j. */
  lemma CopyLabelAndItems(history: seq<Published>, i: nat, j: nat) returns (states: seq<State>, actions: seq<Action>)
    requires history != [] && history[0] == NOTHING && i <= j < |history|
    ensures IsPath(states, actions) && Init(states[0])
    ensures states[|actions|] == State(history, [Reader(Published(history[i].version, history[j].view), Resting)], [])
  {
    states, actions := TakeLabelAt(history, i);
    states, actions := PublishAll(states, actions, history[i + 1..j + 1]);
    assert history[..i + 1] + history[i + 1..j + 1] == history[..j + 1];
    states, actions := OneStep(states, actions, ReaderAct(0, ReadItems));
    states, actions := OneStep(states, actions, ReaderAct(0, Install));
    states, actions := PublishAll(states, actions, history[j + 1..]);
    assert history[..j + 1] + history[j + 1..] == history;
  }

  /** A refresh, or for the empty version a first load, up to the label. */
  lemma TakeLabel(states: seq<State>, actions: seq<Action>) returns (states': seq<State>, actions': seq<Action>)
    requires IsPath(states, actions)
    requires states[|actions|].history != [] && states[|actions|].readers == [Reader(NOTHING, Resting)]
    ensures IsPath(states', actions') && states'[0] == states[0]
    ensures
      var s := states[|actions|];
      states'[|actions'|] == s.(readers := [Reader(NOTHING, LabelRead(Latest(s).version))])
  {
    if Latest(states[|actions|]).version == "" {
      states', actions' := OneStep(states, actions, ReaderAct(0, LoadAtStart));
    } else {
      states', actions' := OneStep(states, actions, ReaderAct(0, CheckVersion));
      states', actions' := OneStep(states', actions', ReaderAct(0, ReadLabel));
    }
  }

  /** A history lets every run skip soundly if and only if whatever it published from any
      occurrence of the present version on has the present view. */
  lemma SoundExactlyWhenVersionsTell(history: seq<Published>)
    requires history != [] && history[0] == NOTHING
    ensures AlwaysSound(history) <==> VersionsTell(history)
  {
    if VersionsTell(history) {
      forall states: seq<State>, actions: seq<Action> |
        IsPath(states, actions) && Init(states[0]) && states[|actions|].history == history
        ensures EndsSound(states, actions)
      {
        var s := states[|actions|];
        forall n | 0 <= n < |s.readers| ensures LabelIsSound(s, s.readers[n].copy) {
          ReaderSkipIsSound(states, actions, |actions|, n);
        }
        forall c | 0 <= c < |s.clients| && CopyUndisturbed(states, actions, |actions|, c)
          ensures LabelIsSound(s, s.clients[c].copy)
        {
          ClientSkipIsSound(states, actions, |actions|, c);
        }
      }
    } else {
      var present := history[|history| - 1];
      var i, j :| 0 <= i <= j < |history| && history[i].version == present.version && history[j].view != present.view;
      var states, actions := CopyLabelAndItems(history, i, j);
      assert states[|actions|].readers[0].copy == Published(history[i].version, history[j].view);
      assert !LabelIsSound(states[|actions|], states[|actions|].readers[0].copy);
    }
  }

  // ----- a disturbed handler -----

  /** A reader's whole refresh. */
  lemma Refresh(states: seq<State>, actions: seq<Action>) returns (states': seq<State>, actions': seq<Action>)
    requires IsPath(states, actions)
    requires
      var s := states[|actions|];
      s.history != [] && |s.readers| == 1 && s.readers[0].phase.Resting? && s.readers[0].copy.version != Latest(s).version
    ensures IsPath(states', actions') && states'[0] == states[0]
    ensures
      var s := states[|actions|];
      states'[|actions'|] == s.(readers := [Reader(Latest(s), Resting)])
  {
    states', actions' := OneStep(states, actions, ReaderAct(0, CheckVersion));
    states', actions' := OneStep(states', actions', ReaderAct(0, ReadLabel));
    states', actions' := OneStep(states', actions', ReaderAct(0, ReadItems));
    states', actions' := OneStep(states', actions', ReaderAct(0, Install));
  }

  /** A replacement between the handler's two reads: the client gets the old items under the
      new label, with every version distinct. */
  lemma DisturbedHandlerMislabels() returns (states: seq<State>, actions: seq<Action>)
    ensures IsPath(states, actions) && Init(states[0])
    ensures
      var s := states[|actions|];
      && s.history == [NOTHING, A, B] && NonRepeating(s.history)
      && s.readers == [Reader(B, Resting)]
      && s.clients == [HttpClient(Published(B.version, A.view), Quiet)]
      && s.clients[0].copy.view != Latest(s).view
  {
    var start := State([NOTHING], [Reader(NOTHING, Resting)], [HttpClient(NOTHING, Quiet)]);
    states, actions := [start], [];
    states, actions := OneStep(states, actions, Publish(A));
    states, actions := Refresh(states, actions);
    states, actions := OneStep(states, actions, ClientAct(0, AskAtStart(0)));
    states, actions := OneStep(states, actions, Publish(B));
    states, actions := Refresh(states, actions);
    states, actions := OneStep(states, actions, ClientAct(0, ReadVersion));
    states, actions := OneStep(states, actions, ClientAct(0, ApplySnapshot));
    assert A.view[KEY] != B.view[KEY];
  }

  /** A reader that comes to hold other items under the present version keeps them until the
      version changes: no refresh of its loop touches its copy. */
  lemma {:induction false} MislabelledReaderIsStuck(
    states: seq<State>, actions: seq<Action>, h: Published, n: nat, k: nat)
    requires Calm(states, actions, h) && k <= |actions|
    requires n < |states[0].readers| && Mislabelled(h, states[0].readers[n].copy) && states[0].readers[n].phase.Resting?
    requires forall m :: 0 <= m < |actions| ==> actions[m] != ReaderAct(n, LoadAtStart)
    ensures n < |states[k].readers| && states[k].readers[n].copy == states[0].readers[n].copy
    ensures states[k].readers[n].phase.Resting? || states[k].readers[n].phase == VersionRead(h.version)
  {
    if k > 0 {
      MislabelledReaderIsStuck(states, actions, h, n, k - 1);
      CalmStaysAt(states, actions, h, k - 1);
      assert actions[k - 1] != ReaderAct(n, LoadAtStart);
    }
  }

  /** A client with a mislabelled copy keeps the old items until the version changes as well: while the servers stay at
      the publication whose label it has, no refresh of its loop touches its copy. */
  lemma {:induction false} MislabelledClientIsStuck(
    states: seq<State>, actions: seq<Action>, h: Published, c: nat, k: nat)
    requires IsPath(states, actions) && k <= |actions|
    requires states[0].history != [] && Latest(states[0]) == h && ReadersSettled(states[0], h)
    requires c < |states[0].clients| && states[0].clients[c].copy.version == h.version && states[0].clients[c].phase.Quiet?
    requires forall m :: 0 <= m < |actions| ==>
      !actions[m].Publish? && !(actions[m].ClientAct? && actions[m].c == c && actions[m].cop.AskAtStart?)
    ensures states[k].history == states[0].history && ReadersSettled(states[k], h)
    ensures c < |states[k].clients| && states[k].clients[c].copy == states[0].clients[c].copy
    ensures states[k].clients[c].phase.Quiet? || states[k].clients[c].phase == VersionGot(h.version)
  {
    if k > 0 {
      MislabelledClientIsStuck(states, actions, h, c, k - 1);
      var s := states[k - 1];
      var a := actions[k - 1];
      forall n | 0 <= n < |states[k].readers| ensures ReaderSettled(h, states[k].readers[n]) {
        assert ReaderSettled(h, s.readers[n]);
      }
      if a.ClientAct? && a.c == c && a.cop.AskVersion? {
        assert ReaderSettled(h, s.readers[a.cop.server]);
      }
    }
  }
}
