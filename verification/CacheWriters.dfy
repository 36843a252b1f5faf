/** Several writers updating the same cache repository, their steps interleaved in any way. */
module CacheWriters {
  import opened Sequences
  import opened FetchCache

  /** A line of a ref listing. */
  datatype Listed = Listed(ref: RefName, sha: Sha)

  /**
   Where a writer is: fetching; done fetching; having read the anchors; going through the listed
   refs, or about to delete one it found disconnected; going through the source's tips, or about
   to anchor one it found connected.
   */
  datatype Phase =
    | Idle
    | Fetching
    | Fetched
    | Read(verified: set<Sha>)
    | Pruning(verified: set<Sha>, todo: seq<Listed>, epoch: nat)
    | Deleting(verified: set<Sha>, found: Listed, todo: seq<Listed>, epoch: nat)
    | Anchoring(verified: set<Sha>, tips: seq<Sha>)
    | Creating(verified: set<Sha>, tip: Sha, tips: seq<Sha>)

  /**
   The repository and its writers. Two counters record history: `epoch` counts the updates given up
   with refs still to be checked, and `healed` is the latest epoch in which a prune pass that has
   ended took its listing.
   */
  datatype State = State(
    objects: set<Sha>, refs: map<RefName, Sha>, have: set<Sha>, writers: seq<Phase>, epoch: nat, healed: nat)

  datatype Step =
    | Begin(w: nat)
    | Receive(w: nat, objects: set<Sha>)
    | Point(w: nat, ref: RefName, sha: Sha)
    | EndFetch(w: nat)
    | ReadAnchors(w: nat)
    | ListRefs(w: nat, listing: seq<Listed>)
    | CheckRef(w: nat)
    | DeleteRef(w: nat)
    | EndPrune(w: nat, tips: seq<Sha>)
    | CheckTip(w: nat)
    | CreateAnchor(w: nat)
    | Finish(w: nat)
    | Abandon(w: nat)

  /** The listing names every advertised ref and where it points. */
  ghost predicate Lists(listing: seq<Listed>, refs: map<RefName, Sha>) {
    && (forall l | l in listing :: l.ref in refs && refs[l.ref] == l.sha)
    && forall r | r in refs :: Listed(r, refs[r]) in listing
  }

  ghost predicate Enabled(st: State, step: Step) {
    step.w < |st.writers| &&
    var phase := st.writers[step.w];
    match step
    case Begin(_) => phase.Idle?
    case Receive(_, _) => phase.Fetching?
    case Point(_, _, sha) => phase.Fetching? && sha in st.objects
    case EndFetch(_) => phase.Fetching?
    case ReadAnchors(_) => phase.Fetched?
    case ListRefs(_, listing) => phase.Read? && Lists(listing, st.refs)
    case CheckRef(_) => phase.Pruning? && phase.todo != []
    case DeleteRef(_) => phase.Deleting?
    case EndPrune(_, _) => phase.Pruning? && phase.todo == []
    case CheckTip(_) => phase.Anchoring? && phase.tips != []
    case CreateAnchor(_) => phase.Creating?
    case Finish(_) => phase.Anchoring? && phase.tips == []
    case Abandon(_) => !phase.Idle?
  }

  /** Between the start of a fetch and the last ref of the prune pass after it. */
  predicate InWindow(phase: Phase) {
    phase.Fetching? || phase.Fetched? || phase.Read? || (phase.Pruning? && phase.todo != []) || phase.Deleting?
  }

  function Later(a: nat, b: nat): nat { if a < b then b else a }

  /** The writer moves to a new phase. */
  function Move(st: State, w: nat, phase: Phase): State
    requires w < |st.writers|
  {
    st.(writers := st.writers[w := phase])
  }

  /** A step. Without `memo`, the check of a listed ref looks at its ancestry in every case. */
  ghost function Apply(parents: History, memo: bool, st: State, step: Step): State
    requires Enabled(st, step)
  {
    var w, phase := step.w, st.writers[step.w];
    match step
    case Begin(_) => Move(st, w, Fetching)
    case Receive(_, objects) => st.(objects := st.objects + objects)
    case Point(_, ref, sha) => st.(refs := st.refs[ref := sha])
    case EndFetch(_) => Move(st, w, Fetched)
    case ReadAnchors(_) => Move(st, w, Read(st.have))
    case ListRefs(_, listing) => Move(st, w, Pruning(phase.verified, listing, st.epoch))
    case CheckRef(_) =>
      var l, rest := phase.todo[0], phase.todo[1..];
      if (memo && l.sha in phase.verified) || Connected(parents, st.objects, l.sha)
      then Move(st, w, Pruning(phase.verified, rest, phase.epoch))
      else Move(st, w, Deleting(phase.verified, l, rest, phase.epoch))
    case DeleteRef(_) =>
      var l := phase.found;
      var refs := if l.ref in st.refs && st.refs[l.ref] == l.sha then st.refs - {l.ref} else st.refs;
      Move(st.(refs := refs), w, Pruning(phase.verified, phase.todo, phase.epoch))
    case EndPrune(_, tips) =>
      Move(st, w, Anchoring(phase.verified, tips)).(healed := Later(st.healed, phase.epoch))
    case CheckTip(_) =>
      var s, rest := phase.tips[0], phase.tips[1..];
      if s in phase.verified || !Connected(parents, st.objects, s)
      then Move(st, w, Anchoring(phase.verified, rest))
      else Move(st, w, Creating(phase.verified, s, rest))
    case CreateAnchor(_) =>
      var have := if phase.tip in st.objects then st.have + {phase.tip} else st.have;
      Move(st.(have := have), w, Anchoring(phase.verified, phase.tips))
    case Finish(_) => Move(st, w, Idle)
    case Abandon(_) => Move(st, w, Idle).(epoch := if InWindow(phase) then st.epoch + 1 else st.epoch)
  }

  /** An empty repository and `n` writers that have not started. */
  function Start(n: nat): State {
    State({}, map[], {}, seq(n, i => Idle), 0, 0)
  }

  /** Where a schedule of steps leads, if each step is possible when it comes. */
  ghost function Run(parents: History, memo: bool, n: nat, steps: seq<Step>): Option<State> {
    if steps == [] then Some(Start(n))
    else
      var last := |steps| - 1;
      match Run(parents, memo, n, steps[..last])
      case None => None
      case Some(st) => if Enabled(st, steps[last]) then Some(Apply(parents, memo, st, steps[last])) else None
  }

  // ---------------------------------------------------------------------------
  // What holds at every moment
  // ---------------------------------------------------------------------------

  function Verified(phase: Phase): set<Sha> {
    match phase
    case Idle => {}
    case Fetching => {}
    case Fetched => {}
    case Read(verified) => verified
    case Pruning(verified, _, _) => verified
    case Deleting(verified, _, _, _) => verified
    case Anchoring(verified, _) => verified
    case Creating(verified, _, _) => verified
  }

  /** The writer has fetched and has still to deal with what is advertised at `l.ref`. */
  predicate Covers(phase: Phase, l: Listed) {
    match phase
    case Fetching => true
    case Fetched => true
    case Read(_) => true
    case Pruning(_, todo, _) => l in todo
    case Deleting(_, found, todo, _) => l == found || l in todo
    case _ => false
  }

  ghost predicate AnchorsConnected(parents: History, st: State) {
    forall s | s in st.have :: Connected(parents, st.objects, s)
  }

  ghost predicate WriterSound(parents: History, st: State, phase: Phase) {
    && Verified(phase) <= st.have
    && (phase.Creating? ==> Connected(parents, st.objects, phase.tip))
  }

  ghost predicate CoveredBySomeone(st: State, l: Listed) {
    exists w | 0 <= w < |st.writers| :: Covers(st.writers[w], l)
  }

  /** Some writer will still check every ref with missing ancestry. */
  ghost predicate DisconnectedCovered(parents: History, st: State) {
    forall r | r in st.refs :: Connected(parents, st.objects, st.refs[r]) || CoveredBySomeone(st, Listed(r, st.refs[r]))
  }

  /** The writer's prune pass took its listing after the last update was given up. */
  predicate ListedSince(phase: Phase, epoch: nat) {
    (phase.Pruning? || phase.Deleting?) && phase.epoch == epoch
  }

  /** A prune pass that took its listing after the last update was given up has ended. */
  predicate Recovered(st: State) { st.healed == st.epoch }

  /** Such a pass has ended or is under way. */
  ghost predicate Recovering(st: State) {
    Recovered(st) || exists w | 0 <= w < |st.writers| :: ListedSince(st.writers[w], st.epoch)
  }

  predicate PhaseInPast(phase: Phase, epoch: nat) { phase.Pruning? || phase.Deleting? ==> phase.epoch <= epoch }

  ghost predicate EpochsInPast(st: State) {
    st.healed <= st.epoch && forall w | 0 <= w < |st.writers| :: PhaseInPast(st.writers[w], st.epoch)
  }

  ghost predicate Invariant(parents: History, st: State) {
    && AnchorsConnected(parents, st)
    && (forall w | 0 <= w < |st.writers| :: WriterSound(parents, st, st.writers[w]))
    && EpochsInPast(st)
    && (Recovering(st) ==> DisconnectedCovered(parents, st))
  }

  /** The window is the time in which a writer covers anything. */
  lemma WindowExactly(phase: Phase)
    ensures InWindow(phase) <==> exists l :: Covers(phase, l)
  {
    if phase.Pruning? && phase.todo != [] { assert Covers(phase, phase.todo[0]); }
    if phase.Deleting? { assert Covers(phase, phase.found); }
    if phase.Fetching? || phase.Fetched? || phase.Read? { assert Covers(phase, Listed("", "")); }
  }

  /** Anchors, objects, the number of writers and the counters only grow or stay. */
  ghost predicate Grows(st: State, st': State) {
    && st.objects <= st'.objects && st.have <= st'.have && |st.writers| == |st'.writers|
    && st.epoch <= st'.epoch && st.healed <= st'.healed
  }

  lemma StepGrows(parents: History, memo: bool, st: State, step: Step)
    requires Enabled(st, step)
    ensures Grows(st, Apply(parents, memo, st, step))
  {
  }

  lemma StepKeepsConnected(parents: History, memo: bool, st: State, step: Step, s: Sha)
    requires Enabled(st, step) && Connected(parents, st.objects, s)
    ensures Connected(parents, Apply(parents, memo, st, step).objects, s)
  {
    var st' := Apply(parents, memo, st, step);
    StepGrows(parents, memo, st, step);
    ConnectedMonotone(parents, st.objects, st'.objects, s);
  }

  lemma StepKeepsAnchors(parents: History, memo: bool, st: State, step: Step)
    requires Enabled(st, step) && AnchorsConnected(parents, st) && WriterSound(parents, st, st.writers[step.w])
    ensures AnchorsConnected(parents, Apply(parents, memo, st, step))
  {
    var st' := Apply(parents, memo, st, step);
    forall s | s in st'.have ensures Connected(parents, st'.objects, s) {
      StepKeepsConnected(parents, memo, st, step, s);
    }
  }

  lemma StepKeepsWriter(parents: History, memo: bool, st: State, step: Step, w: nat)
    requires Enabled(st, step) && w < |st.writers| && WriterSound(parents, st, st.writers[w])
    ensures var st' := Apply(parents, memo, st, step);
            w < |st'.writers| && WriterSound(parents, st', st'.writers[w])
  {
    var st' := Apply(parents, memo, st, step);
    StepGrows(parents, memo, st, step);
    if st'.writers[w].Creating? { StepKeepsConnected(parents, memo, st, step, st'.writers[w].tip); }
  }

  lemma StepKeepsSound(parents: History, memo: bool, st: State, step: Step)
    requires Enabled(st, step) && Invariant(parents, st)
    ensures AnchorsConnected(parents, Apply(parents, memo, st, step))
    ensures var st' := Apply(parents, memo, st, step);
            forall w | 0 <= w < |st'.writers| :: WriterSound(parents, st', st'.writers[w])
  {
    StepKeepsAnchors(parents, memo, st, step);
    StepGrows(parents, memo, st, step);
    var st' := Apply(parents, memo, st, step);
    forall w: nat | w < |st'.writers| ensures WriterSound(parents, st', st'.writers[w]) {
      StepKeepsWriter(parents, memo, st, step, w);
    }
  }

  /** The step of one writer leaves what the others cover covered. */
  lemma OthersStillCover(parents: History, memo: bool, st: State, step: Step, l: Listed, w: nat)
    requires Enabled(st, step) && w < |st.writers| && w != step.w && Covers(st.writers[w], l)
    ensures CoveredBySomeone(Apply(parents, memo, st, step), l)
  {
    var st' := Apply(parents, memo, st, step);
    assert st'.writers[w] == st.writers[w];
  }

  /** A writer stops covering a ref only when it is connected, gone or overwritten. */
  lemma OwnCoverKept(parents: History, memo: bool, st: State, step: Step, r: RefName)
    requires Enabled(st, step) && Invariant(parents, st) && (step.Abandon? ==> !InWindow(st.writers[step.w]))
    requires r in st.refs && Covers(st.writers[step.w], Listed(r, st.refs[r]))
    requires !Connected(parents, st.objects, st.refs[r])
    ensures var st' := Apply(parents, memo, st, step);
            r in st'.refs && st'.refs[r] == st.refs[r] && !Connected(parents, st'.objects, st'.refs[r]) ==>
              CoveredBySomeone(st', Listed(r, st.refs[r]))
  {
    var st' := Apply(parents, memo, st, step);
    var phase, phase' := st.writers[step.w], st'.writers[step.w];
    var l := Listed(r, st.refs[r]);
    assert WriterSound(parents, st, phase);
    if r in st'.refs && st'.refs[r] == st.refs[r] && !Connected(parents, st'.objects, st'.refs[r]) {
      match step {
        case CheckRef(_) =>
          assert phase.todo == [phase.todo[0]] + phase.todo[1..];
          assert l.sha !in phase.verified;
        case _ =>
      }
      assert Covers(phase', l);
    }
  }

  lemma StepKeepsEpochs(parents: History, memo: bool, st: State, step: Step)
    requires Enabled(st, step) && EpochsInPast(st)
    ensures EpochsInPast(Apply(parents, memo, st, step))
  {
    var st' := Apply(parents, memo, st, step);
    assert PhaseInPast(st.writers[step.w], st.epoch);
    forall w | 0 <= w < |st'.writers| ensures PhaseInPast(st'.writers[w], st'.epoch) {
      assert PhaseInPast(st.writers[w], st.epoch);
    }
  }

  /** Only a new listing starts a recovery, and giving up inside the window ends every one. */
  lemma RecoveryStarts(parents: History, memo: bool, st: State, step: Step)
    requires Enabled(st, step) && EpochsInPast(st) && Recovering(Apply(parents, memo, st, step))
    ensures Recovering(st) || step.ListRefs?
    ensures step.Abandon? ==> !InWindow(st.writers[step.w])
  {
    var st' := Apply(parents, memo, st, step);
    assert PhaseInPast(st.writers[step.w], st.epoch);
    if Recovered(st') {
      assert !Recovered(st) ==> step.EndPrune? && ListedSince(st.writers[step.w], st.epoch);
    } else {
      var w :| 0 <= w < |st'.writers| && ListedSince(st'.writers[w], st'.epoch);
      assert PhaseInPast(st.writers[w], st.epoch);
      assert step.ListRefs? || ListedSince(st.writers[w], st.epoch);
    }
  }

  /** A listing covers every ref. */
  lemma ListingCovers(parents: History, memo: bool, st: State, step: Step)
    requires Enabled(st, step) && step.ListRefs?
    ensures DisconnectedCovered(parents, Apply(parents, memo, st, step))
  {
    var st' := Apply(parents, memo, st, step);
    forall r | r in st'.refs ensures CoveredBySomeone(st', Listed(r, st'.refs[r])) {
      assert Covers(st'.writers[step.w], Listed(r, st'.refs[r]));
    }
  }

  lemma StepKeepsCovered(parents: History, memo: bool, st: State, step: Step)
    requires Enabled(st, step) && Invariant(parents, st)
    ensures var st' := Apply(parents, memo, st, step); Recovering(st') ==> DisconnectedCovered(parents, st')
  {
    var st' := Apply(parents, memo, st, step);
    if Recovering(st') {
      RecoveryStarts(parents, memo, st, step);
      if step.ListRefs? { ListingCovers(parents, memo, st, step); } else { CoverGoesOn(parents, memo, st, step); }
    }
  }

  lemma CoverGoesOn(parents: History, memo: bool, st: State, step: Step)
    requires Enabled(st, step) && Invariant(parents, st) && DisconnectedCovered(parents, st)
    requires step.Abandon? ==> !InWindow(st.writers[step.w])
    ensures DisconnectedCovered(parents, Apply(parents, memo, st, step))
  {
    var st' := Apply(parents, memo, st, step);
    forall r | r in st'.refs && !Connected(parents, st'.objects, st'.refs[r])
      ensures CoveredBySomeone(st', Listed(r, st'.refs[r]))
    {
      StepGrows(parents, memo, st, step);
      var l := Listed(r, st'.refs[r]);
      if step.Point? && step.ref == r {
        assert Covers(st'.writers[step.w], l);
      } else {
        assert r in st.refs && st.refs[r] == st'.refs[r];
        assert !Connected(parents, st.objects, st.refs[r]);
        var w :| 0 <= w < |st.writers| && Covers(st.writers[w], l);
        if w == step.w {
          OwnCoverKept(parents, memo, st, step, r);
        } else {
          OthersStillCover(parents, memo, st, step, l, w);
        }
      }
    }
  }

  lemma StepKeepsInvariant(parents: History, memo: bool, st: State, step: Step)
    requires Enabled(st, step) && Invariant(parents, st)
    ensures Invariant(parents, Apply(parents, memo, st, step))
  {
    StepKeepsSound(parents, memo, st, step);
    StepKeepsEpochs(parents, memo, st, step);
    StepKeepsCovered(parents, memo, st, step);
  }

  lemma {:induction false} EveryRunKeepsInvariant(parents: History, memo: bool, n: nat, steps: seq<Step>)
    requires Run(parents, memo, n, steps).Some?
    ensures Invariant(parents, Run(parents, memo, n, steps).value)
    decreases |steps|
  {
    if steps != [] {
      var last := |steps| - 1;
      EveryRunKeepsInvariant(parents, memo, n, steps[..last]);
      StepKeepsInvariant(parents, memo, Run(parents, memo, n, steps[..last]).value, steps[last]);
    }
  }

  // ---------------------------------------------------------------------------
  // Theorems
  // ---------------------------------------------------------------------------

  /** Later states of a run have at least the objects and anchors of earlier ones. */
  lemma {:induction false} RunGrows(parents: History, memo: bool, n: nat, steps: seq<Step>, k: nat)
    requires Run(parents, memo, n, steps).Some? && k <= |steps|
    ensures Run(parents, memo, n, steps[..k]).Some?
    ensures Grows(Run(parents, memo, n, steps[..k]).value, Run(parents, memo, n, steps).value)
    decreases |steps|
  {
    if k == |steps| {
      assert steps[..k] == steps;
    } else {
      var last := |steps| - 1;
      assert steps[..last][..k] == steps[..k];
      RunGrows(parents, memo, n, steps[..last], k);
      StepGrows(parents, memo, Run(parents, memo, n, steps[..last]).value, steps[last]);
    }
  }

  /** In every interleaving, a commit anchored at some moment stays anchored and has its whole
      ancestry present then and at every later moment. */
  lemma AnchorsStayConnected(parents: History, memo: bool, n: nat, steps: seq<Step>, k: nat, s: Sha)
    requires Run(parents, memo, n, steps).Some? && k <= |steps|
    requires Run(parents, memo, n, steps[..k]).Some? && s in Run(parents, memo, n, steps[..k]).value.have
    ensures var st := Run(parents, memo, n, steps).value;
            s in st.have && Connected(parents, st.objects, s)
    ensures Connected(parents, Run(parents, memo, n, steps[..k]).value.objects, s)
  {
    RunGrows(parents, memo, n, steps, k);
    EveryRunKeepsInvariant(parents, memo, n, steps);
    EveryRunKeepsInvariant(parents, memo, n, steps[..k]);
  }

  /** Skipping verified commits changes no step of any run: the same refs are deleted. */
  lemma {:induction false} MemoChangesNothing(parents: History, n: nat, steps: seq<Step>)
    ensures Run(parents, true, n, steps) == Run(parents, false, n, steps)
    decreases |steps|
  {
    if steps != [] {
      var last := |steps| - 1;
      MemoChangesNothing(parents, n, steps[..last]);
      if Run(parents, true, n, steps[..last]).Some? {
        EveryRunKeepsInvariant(parents, true, n, steps[..last]);
        var st := Run(parents, true, n, steps[..last]).value;
        if Enabled(st, steps[last]) { assert WriterSound(parents, st, st.writers[steps[last].w]); }
      }
    }
  }

  /** A verified tip is anchored already, so skipping it loses nothing. */
  lemma VerifiedTipsAnchored(parents: History, n: nat, steps: seq<Step>, w: nat)
    requires Run(parents, true, n, steps).Some? && w < |Run(parents, true, n, steps).value.writers|
    ensures var st := Run(parents, true, n, steps).value; Verified(st.writers[w]) <= st.have
  {
    EveryRunKeepsInvariant(parents, true, n, steps);
    var st := Run(parents, true, n, steps).value;
    assert WriterSound(parents, st, st.writers[w]);
  }

  ghost predicate Quiet(st: State) {
    forall w | 0 <= w < |st.writers| :: !InWindow(st.writers[w])
  }

  ghost predicate Honest(parents: History, st: State) {
    forall r | r in st.refs :: Connected(parents, st.objects, st.refs[r])
  }

  /**
   Whenever no writer is between a fetch and the end of its prune pass, and a prune pass that listed
   the refs after the last update was given up has ended, every advertised ref has its whole
   ancestry, whatever was given up before.
   */
  lemma QuietCacheIsHonest(parents: History, memo: bool, n: nat, steps: seq<Step>)
    requires Run(parents, memo, n, steps).Some?
    requires var st := Run(parents, memo, n, steps).value; Quiet(st) && Recovered(st)
    ensures Honest(parents, Run(parents, memo, n, steps).value)
  {
    EveryRunKeepsInvariant(parents, memo, n, steps);
  }

  lemma RunOneMore(parents: History, memo: bool, n: nat, steps: seq<Step>, st: State, step: Step)
    requires Run(parents, memo, n, steps) == Some(st) && Enabled(st, step)
    ensures Run(parents, memo, n, steps + [step]) == Some(Apply(parents, memo, st, step))
  {
    var longer := steps + [step];
    assert longer[..|longer| - 1] == steps;
  }

  // ---------------------------------------------------------------------------
  // Traces
  // ---------------------------------------------------------------------------

  ghost predicate StepOf(parents: History, memo: bool, steps: seq<Step>, states: seq<State>, i: nat)
    requires i < |steps| < |states|
  {
    Enabled(states[i], steps[i]) && states[i + 1] == Apply(parents, memo, states[i], steps[i])
  }

  /** The states that a schedule runs through, from the start. */
  ghost predicate Trace(parents: History, memo: bool, n: nat, steps: seq<Step>, states: seq<State>) {
    && |states| == |steps| + 1 && states[0] == Start(n)
    && forall i: nat | i < |steps| :: StepOf(parents, memo, steps, states, i)
  }

  lemma {:induction false} TraceIsRun(parents: History, memo: bool, n: nat, steps: seq<Step>, states: seq<State>)
    requires Trace(parents, memo, n, steps, states)
    ensures Run(parents, memo, n, steps) == Some(states[|steps|])
    decreases |steps|
  {
    if steps != [] {
      var last := |steps| - 1;
      var steps', states' := steps[..last], states[..last + 1];
      forall i: nat | i < last ensures StepOf(parents, memo, steps', states', i) {
        assert StepOf(parents, memo, steps, states, i);
      }
      TraceIsRun(parents, memo, n, steps', states');
      assert StepOf(parents, memo, steps, states, last);
    }
  }

  lemma Extend(parents: History, memo: bool, n: nat, steps: seq<Step>, states: seq<State>, step: Step)
    returns (steps': seq<Step>, states': seq<State>)
    requires Trace(parents, memo, n, steps, states) && Enabled(states[|steps|], step)
    ensures Trace(parents, memo, n, steps', states') && steps' == steps + [step] && states <= states'
    ensures states'[|steps'|] == Apply(parents, memo, states[|steps|], step)
  {
    steps', states' := steps + [step], states + [Apply(parents, memo, states[|steps|], step)];
    forall i: nat | i < |steps'| ensures StepOf(parents, memo, steps', states', i) {
      if i < |steps| { assert StepOf(parents, memo, steps, states, i); }
    }
  }

  /** Every run has its trace. */
  lemma {:induction false} RunHasTrace(parents: History, memo: bool, n: nat, steps: seq<Step>)
    returns (states: seq<State>)
    requires Run(parents, memo, n, steps).Some?
    ensures Trace(parents, memo, n, steps, states) && Run(parents, memo, n, steps) == Some(states[|steps|])
    decreases |steps|
  {
    if steps == [] {
      states := [Start(n)];
    } else {
      var last := |steps| - 1;
      var before := RunHasTrace(parents, memo, n, steps[..last]);
      var steps';
      steps', states := Extend(parents, memo, n, steps[..last], before, steps[last]);
      assert steps' == steps;
      TraceIsRun(parents, memo, n, steps, states);
    }
  }

  lemma {:induction false} TraceKeepsInvariant(parents: History, memo: bool, n: nat, steps: seq<Step>,
                                               states: seq<State>, k: nat)
    requires Trace(parents, memo, n, steps, states) && k <= |steps|
    ensures Invariant(parents, states[k]) && |states[k].writers| == n
  {
    if k > 0 {
      TraceKeepsInvariant(parents, memo, n, steps, states, k - 1);
      assert StepOf(parents, memo, steps, states, k - 1);
      StepKeepsInvariant(parents, memo, states[k - 1], steps[k - 1]);
      StepGrows(parents, memo, states[k - 1], steps[k - 1]);
    }
  }

  // ---------------------------------------------------------------------------
  // What is kept
  // ---------------------------------------------------------------------------

  /** Some writer found this line's commit disconnected and deletes the ref next. */
  ghost predicate AboutToDelete(st: State, l: Listed) {
    exists w | 0 <= w < |st.writers| :: st.writers[w].Deleting? && st.writers[w].found == l
  }

  predicate PointsRef(step: Step, r: RefName) { step.Point? && step.ref == r }

  /** The ref points at a commit whose whole ancestry is present, and nobody is about to delete it. */
  ghost predicate Safe(parents: History, st: State, r: RefName, s: Sha) {
    r in st.refs && st.refs[r] == s && Connected(parents, st.objects, s) && !AboutToDelete(st, Listed(r, s))
  }

  lemma StepKeepsSafe(parents: History, memo: bool, st: State, step: Step, r: RefName, s: Sha)
    requires Enabled(st, step) && Safe(parents, st, r, s) && !PointsRef(step, r)
    ensures Safe(parents, Apply(parents, memo, st, step), r, s)
  {
    var st' := Apply(parents, memo, st, step);
    StepGrows(parents, memo, st, step);
    ConnectedMonotone(parents, st.objects, st'.objects, s);
    forall w | 0 <= w < |st'.writers| ensures !(st'.writers[w].Deleting? && st'.writers[w].found == Listed(r, s)) {
      assert !(st.writers[w].Deleting? && st.writers[w].found == Listed(r, s));
    }
  }

  /** Such a ref stays as it is, whatever the writers do, until a fetch points it elsewhere. */
  lemma {:induction false} SafeRefStays(parents: History, memo: bool, n: nat, steps: seq<Step>, states: seq<State>,
                                        k: nat, m: nat, r: RefName, s: Sha)
    requires Trace(parents, memo, n, steps, states) && k <= m <= |steps| && Safe(parents, states[k], r, s)
    requires forall i | k <= i < m :: !PointsRef(steps[i], r)
    ensures Safe(parents, states[m], r, s)
  {
    if k < m {
      SafeRefStays(parents, memo, n, steps, states, k, m - 1, r, s);
      assert StepOf(parents, memo, steps, states, m - 1);
      StepKeepsSafe(parents, memo, states[m - 1], steps[m - 1], r, s);
    }
  }

  /** The run goes on so that the ref is lost, though no fetch points it elsewhere. */
  ghost predicate Loses(parents: History, memo: bool, n: nat, steps: seq<Step>, states: seq<State>,
                        longer: seq<Step>, states': seq<State>, r: RefName)
    requires |states| == |steps| + 1 && r in states[|steps|].refs
  {
    && Trace(parents, memo, n, longer, states') && steps <= longer && states <= states'
    && (forall i | |steps| <= i < |longer| :: !PointsRef(longer[i], r))
    && var refs := states'[|longer|].refs; !(r in refs && refs[r] == states[|steps|].refs[r])
  }

  /** A ref with its whole ancestry can get lost if and only if some writer is about to delete it. */
  lemma ConnectedRefLostExactly(parents: History, memo: bool, n: nat, steps: seq<Step>, states: seq<State>, r: RefName)
    requires Trace(parents, memo, n, steps, states) && r in states[|steps|].refs
    requires Connected(parents, states[|steps|].objects, states[|steps|].refs[r])
    ensures (exists longer, states' :: Loses(parents, memo, n, steps, states, longer, states', r))
            <==> AboutToDelete(states[|steps|], Listed(r, states[|steps|].refs[r]))
  {
    var st := states[|steps|];
    if AboutToDelete(st, Listed(r, st.refs[r])) {
      var w: nat :| w < |st.writers| && st.writers[w].Deleting? && st.writers[w].found == Listed(r, st.refs[r]);
      var longer, states' := Extend(parents, memo, n, steps, states, DeleteRef(w));
      assert Loses(parents, memo, n, steps, states, longer, states', r);
    } else {
      forall longer, states' | Loses(parents, memo, n, steps, states, longer, states', r) ensures false {
        assert states'[|steps|] == st;
        SafeRefStays(parents, memo, n, longer, states', |steps|, |longer|, r, st.refs[r]);
      }
    }
  }

  /** At step `i` the writer checked this line and found the ancestry of its commit missing. */
  ghost predicate FoundMissing(parents: History, steps: seq<Step>, states: seq<State>, i: nat, w: nat, l: Listed)
    requires |states| == |steps| + 1
  {
    && i < |steps| && steps[i] == CheckRef(w) && w < |states[i].writers|
    && var phase := states[i].writers[w];
    phase.Pruning? && phase.todo != [] && phase.todo[0] == l && !Connected(parents, states[i].objects, l.sha)
  }

  ghost predicate FoundBefore(parents: History, steps: seq<Step>, states: seq<State>, k: nat, w: nat, l: Listed)
    requires |states| == |steps| + 1
  {
    exists i: nat | i < k :: FoundMissing(parents, steps, states, i, w, l)
  }

  lemma StepStartsDeleting(parents: History, memo: bool, st: State, step: Step, w: nat)
    requires Enabled(st, step) && w < |st.writers| && Apply(parents, memo, st, step).writers[w].Deleting?
    ensures var l := Apply(parents, memo, st, step).writers[w].found;
            || (st.writers[w].Deleting? && st.writers[w].found == l)
            || (step == CheckRef(w) && st.writers[w].todo[0] == l && !Connected(parents, st.objects, l.sha))
  {
  }

  /** A writer is about to delete only what it found missing. */
  lemma {:induction false} DeletingFound(parents: History, memo: bool, n: nat, steps: seq<Step>, states: seq<State>,
                                         k: nat, w: nat)
    requires Trace(parents, memo, n, steps, states) && k <= |steps| && w < |states[k].writers|
    requires states[k].writers[w].Deleting?
    ensures FoundBefore(parents, steps, states, k, w, states[k].writers[w].found)
  {
    TraceKeepsInvariant(parents, memo, n, steps, states, k);
    if k > 0 {
      TraceKeepsInvariant(parents, memo, n, steps, states, k - 1);
      assert StepOf(parents, memo, steps, states, k - 1);
      StepStartsDeleting(parents, memo, states[k - 1], steps[k - 1], w);
      if states[k - 1].writers[w].Deleting? {
        DeletingFound(parents, memo, n, steps, states, k - 1, w);
      } else {
        assert FoundMissing(parents, steps, states, k - 1, w, states[k].writers[w].found);
      }
    }
  }

  lemma StepLosesRef(parents: History, memo: bool, st: State, step: Step, r: RefName)
    requires Enabled(st, step) && r in st.refs && !PointsRef(step, r)
    requires var refs := Apply(parents, memo, st, step).refs; !(r in refs && refs[r] == st.refs[r])
    ensures step.DeleteRef? && Apply(parents, memo, st, step).refs == st.refs - {r}
    ensures st.writers[step.w].found == Listed(r, st.refs[r])
  {
  }

  /**
   If a step makes a ref disappear or change and is no fetch pointing it elsewhere, then a writer
   deletes this ref and no other, after finding ancestry of the very commit it points at missing.
   */
  lemma OnlyMissingDeleted(parents: History, memo: bool, n: nat, steps: seq<Step>, states: seq<State>, k: nat,
                           r: RefName)
    requires Trace(parents, memo, n, steps, states) && k < |steps| && r in states[k].refs
    requires !PointsRef(steps[k], r) && !(r in states[k + 1].refs && states[k + 1].refs[r] == states[k].refs[r])
    ensures steps[k].DeleteRef? && states[k + 1].refs == states[k].refs - {r}
    ensures FoundBefore(parents, steps, states, k, steps[k].w, Listed(r, states[k].refs[r]))
  {
    assert StepOf(parents, memo, steps, states, k);
    StepLosesRef(parents, memo, states[k], steps[k], r);
    DeletingFound(parents, memo, n, steps, states, k, steps[k].w);
  }

  // ---------------------------------------------------------------------------
  // What is anchored
  // ---------------------------------------------------------------------------

  /** The source's tips that the writer has still to check. */
  function TipsLeft(phase: Phase): seq<Sha> {
    if phase.Anchoring? || phase.Creating? then phase.tips else []
  }

  /** The commit is anchored, or its writer is about to anchor it. */
  predicate Anchored(st: State, w: nat, t: Sha) {
    t in st.have || (w < |st.writers| && st.writers[w].Creating? && st.writers[w].tip == t)
  }

  /** The tip is the next to be checked; if its ancestry is present, it is anchored `now`. */
  ghost predicate Settles(parents: History, st: State, w: nat, t: Sha, now: State) {
    && w < |st.writers| && TipsLeft(st.writers[w]) != [] && TipsLeft(st.writers[w])[0] == t
    && (Connected(parents, st.objects, t) ==> Anchored(now, w, t))
  }

  /** Between `k` and `m` the writer checked this tip; if its ancestry was present then, it is anchored at `m`. */
  ghost predicate CheckedBetween(parents: History, steps: seq<Step>, states: seq<State>, k: nat, m: nat, w: nat, t: Sha)
    requires k <= m <= |steps| < |states|
  {
    exists i | k <= i < m :: steps[i] == CheckTip(w) && Settles(parents, states[i], w, t, states[m])
  }

  lemma AnchoredStays(parents: History, memo: bool, st: State, step: Step, w: nat, t: Sha)
    requires Enabled(st, step) && Invariant(parents, st) && step != Abandon(w) && Anchored(st, w, t)
    ensures Anchored(Apply(parents, memo, st, step), w, t)
  {
    if w < |st.writers| { assert WriterSound(parents, st, st.writers[w]); }
    AncestorSelf(parents, t);
  }

  /** A step leaves a tip to be checked, unless it checks it or gives the update up. */
  lemma StepKeepsTip(parents: History, memo: bool, st: State, step: Step, w: nat, t: Sha)
    requires Enabled(st, step) && Invariant(parents, st) && w < |st.writers| && t in TipsLeft(st.writers[w])
    requires step != Abandon(w)
    ensures var now := Apply(parents, memo, st, step);
            w < |now.writers| &&
            (t in TipsLeft(now.writers[w]) || (step == CheckTip(w) && Settles(parents, st, w, t, now)))
  {
    assert WriterSound(parents, st, st.writers[w]);
    var tips := TipsLeft(st.writers[w]);
    assert tips == [tips[0]] + tips[1..];
  }

  /** A tip that a writer has to check is still to be checked or has been, unless the update is given up. */
  lemma {:induction false} TipDealtWith(parents: History, memo: bool, n: nat, steps: seq<Step>, states: seq<State>,
                                        k: nat, m: nat, w: nat, t: Sha)
    requires Trace(parents, memo, n, steps, states) && k <= m <= |steps| && w < n
    requires w < |states[k].writers| && t in TipsLeft(states[k].writers[w])
    requires forall i | k <= i < m :: steps[i] != Abandon(w)
    ensures w < |states[m].writers|
    ensures t in TipsLeft(states[m].writers[w]) || CheckedBetween(parents, steps, states, k, m, w, t)
  {
    if k < m {
      TipDealtWith(parents, memo, n, steps, states, k, m - 1, w, t);
      TipOneMore(parents, memo, n, steps, states, k, m - 1, w, t);
    }
  }

  lemma TipOneMore(parents: History, memo: bool, n: nat, steps: seq<Step>, states: seq<State>, k: nat, m: nat, w: nat,
                   t: Sha)
    requires Trace(parents, memo, n, steps, states) && k <= m < |steps| && steps[m] != Abandon(w)
    requires w < |states[m].writers|
    requires t in TipsLeft(states[m].writers[w]) || CheckedBetween(parents, steps, states, k, m, w, t)
    ensures w < |states[m + 1].writers|
    ensures t in TipsLeft(states[m + 1].writers[w]) || CheckedBetween(parents, steps, states, k, m + 1, w, t)
  {
    TraceKeepsInvariant(parents, memo, n, steps, states, m);
    assert StepOf(parents, memo, steps, states, m);
    StepGrows(parents, memo, states[m], steps[m]);
    if t in TipsLeft(states[m].writers[w]) {
      StepKeepsTip(parents, memo, states[m], steps[m], w, t);
    } else {
      var i :| k <= i < m && steps[i] == CheckTip(w) && Settles(parents, states[i], w, t, states[m]);
      if Anchored(states[m], w, t) { AnchoredStays(parents, memo, states[m], steps[m], w, t); }
      assert Settles(parents, states[i], w, t, states[m + 1]);
    }
  }

  /** Between `k` and `m` the writer checked this tip; if its ancestry was present then, it is in `have`. */
  ghost predicate CheckedAndAnchored(parents: History, steps: seq<Step>, states: seq<State>, k: nat, m: nat, w: nat,
                                     t: Sha, have: set<Sha>)
    requires k <= m <= |steps| < |states|
  {
    exists i | k < i < m ::
      steps[i] == CheckTip(w) && (Connected(parents, states[i].objects, t) ==> t in have) && NextTip(states[i], w, t)
  }

  predicate NextTip(st: State, w: nat, t: Sha) {
    w < |st.writers| && st.writers[w].Anchoring? && st.writers[w].tips != [] && st.writers[w].tips[0] == t
  }

  /** Ending the prune pass makes the source's tips the ones to check. */
  lemma PruneEndsWithTips(parents: History, memo: bool, st: State, w: nat, tips: seq<Sha>)
    requires Enabled(st, EndPrune(w, tips))
    ensures var st' := Apply(parents, memo, st, EndPrune(w, tips));
            w < |st'.writers| && TipsLeft(st'.writers[w]) == tips
  {
  }

  /**
   An update that ends has checked every tip of the source after its prune pass, and every tip whose
   ancestry was present at its check is anchored.
   */
  lemma FinishedUpdateAnchors(parents: History, memo: bool, n: nat, steps: seq<Step>, states: seq<State>, k: nat,
                              m: nat, w: nat, tips: seq<Sha>, t: Sha)
    requires Trace(parents, memo, n, steps, states) && k < m < |steps|
    requires steps[k] == EndPrune(w, tips) && steps[m] == Finish(w) && t in tips
    requires forall i | k < i < m :: steps[i] != Abandon(w)
    ensures CheckedAndAnchored(parents, steps, states, k, m, w, t, states[m].have)
  {
    TraceKeepsInvariant(parents, memo, n, steps, states, k);
    assert StepOf(parents, memo, steps, states, k);
    PruneEndsWithTips(parents, memo, states[k], w, tips);
    TipDealtWith(parents, memo, n, steps, states, k + 1, m, w, t);
    assert StepOf(parents, memo, steps, states, m);
    assert states[m].writers[w].Anchoring? && states[m].writers[w].tips == [];
    var i :| k + 1 <= i < m && steps[i] == CheckTip(w) && Settles(parents, states[i], w, t, states[m]);
    assert StepOf(parents, memo, steps, states, i);
  }

  // ---------------------------------------------------------------------------
  // The next update recovers
  // ---------------------------------------------------------------------------

  lemma {:induction false} ListingOf(refs: map<RefName, Sha>) returns (listing: seq<Listed>)
    ensures Lists(listing, refs)
    decreases refs.Keys
  {
    if refs == map[] {
      listing := [];
    } else {
      var r :| r in refs;
      assert (refs - {r}).Keys == refs.Keys - {r};
      var others := refs - {r};
      var rest := ListingOf(others);
      listing := [Listed(r, refs[r])] + rest;
      forall q | q in refs ensures Listed(q, refs[q]) in listing {
        if q == r { assert listing[0] == Listed(r, refs[r]); } else { assert Listed(q, others[q]) in rest; }
      }
    }
  }

  /** The refs without those that are listed and whose ancestry is missing. */
  ghost function Pruned(parents: History, objects: set<Sha>, refs: map<RefName, Sha>, todo: seq<Listed>)
    : map<RefName, Sha>
  {
    map r | r in refs && (Listed(r, refs[r]) in todo ==> Connected(parents, objects, refs[r])) :: refs[r]
  }

  /** Dealing with the first line leaves the rest to be pruned. */
  lemma PruneOne(parents: History, objects: set<Sha>, refs: map<RefName, Sha>, refs': map<RefName, Sha>,
                 todo: seq<Listed>)
    requires todo != []
    requires var l := todo[0];
             refs' ==
               if l.ref in refs && refs[l.ref] == l.sha && !Connected(parents, objects, l.sha) then refs - {l.ref}
               else refs
    ensures Pruned(parents, objects, refs', todo[1..]) == Pruned(parents, objects, refs, todo)
  {
    assert todo == [todo[0]] + todo[1..];
  }

  /** A writer can go through the rest of its listing. */
  lemma {:induction false} PruneOut(parents: History, memo: bool, n: nat, steps: seq<Step>, st: State, w: nat)
    returns (longer: seq<Step>, st': State)
    requires Run(parents, memo, n, steps) == Some(st) && w < |st.writers| && st.writers[w].Pruning?
    ensures steps <= longer && Run(parents, memo, n, longer) == Some(st')
    ensures var phase := st.writers[w]; st'.writers == st.writers[w := Pruning(phase.verified, [], phase.epoch)]
    ensures st'.epoch == st.epoch && st'.healed == st.healed && st'.objects == st.objects && st'.have == st.have
    ensures st'.refs == Pruned(parents, st.objects, st.refs, st.writers[w].todo)
    decreases |st.writers[w].todo|
  {
    if st.writers[w].todo == [] {
      longer, st' := steps, st;
    } else {
      EveryRunKeepsInvariant(parents, memo, n, steps);
      assert WriterSound(parents, st, st.writers[w]);
      RunOneMore(parents, memo, n, steps, st, CheckRef(w));
      var mid, on := Apply(parents, memo, st, CheckRef(w)), steps + [CheckRef(w)];
      if mid.writers[w].Deleting? {
        RunOneMore(parents, memo, n, on, mid, DeleteRef(w));
        mid, on := Apply(parents, memo, mid, DeleteRef(w)), on + [DeleteRef(w)];
      }
      PruneOne(parents, st.objects, st.refs, mid.refs, st.writers[w].todo);
      longer, st' := PruneOut(parents, memo, n, on, mid, w);
    }
  }

  /** Fetching nothing and listing the refs. */
  lemma UpToListing(parents: History, memo: bool, n: nat, steps: seq<Step>, st: State, w: nat, listing: seq<Listed>)
    returns (longer: seq<Step>)
    requires Run(parents, memo, n, steps) == Some(st) && w < |st.writers| && st.writers[w].Idle?
    requires Lists(listing, st.refs)
    ensures steps <= longer
    ensures Run(parents, memo, n, longer) == Some(Move(st, w, Pruning(st.have, listing, st.epoch)))
  {
    RunOneMore(parents, memo, n, steps, st, Begin(w));
    var s1 := Move(st, w, Fetching);
    RunOneMore(parents, memo, n, steps + [Begin(w)], s1, EndFetch(w));
    var s2 := Move(s1, w, Fetched);
    RunOneMore(parents, memo, n, steps + [Begin(w)] + [EndFetch(w)], s2, ReadAnchors(w));
    var s3 := Move(s2, w, Read(st.have));
    var on := steps + [Begin(w)] + [EndFetch(w)] + [ReadAnchors(w)];
    RunOneMore(parents, memo, n, on, s3, ListRefs(w, listing));
    longer := on + [ListRefs(w, listing)];
    assert s3.writers[w := Pruning(st.have, listing, st.epoch)] == st.writers[w := Pruning(st.have, listing, st.epoch)];
  }

  /**
   Whatever was given up before, an update by an idle writer leads to a recovered cache, without a
   step of any other writer, and prunes exactly the refs with missing ancestry; if no other writer is
   inside its window, the cache is then honest.
   */
  lemma NextUpdateRecovers(parents: History, memo: bool, n: nat, steps: seq<Step>, w: nat) returns (longer: seq<Step>)
    requires Run(parents, memo, n, steps).Some?
    requires var st := Run(parents, memo, n, steps).value; w < |st.writers| && st.writers[w].Idle?
    ensures steps <= longer && Run(parents, memo, n, longer).Some?
    ensures var st, st' := Run(parents, memo, n, steps).value, Run(parents, memo, n, longer).value;
            && Recovered(st') && |st'.writers| == |st.writers| && !InWindow(st'.writers[w])
            && (forall v | 0 <= v < |st.writers| && v != w :: st'.writers[v] == st.writers[v])
            && st'.refs == ConnectedRefs(parents, st.objects, st.refs)
            && st'.objects == st.objects && st'.have == st.have
            && (Quiet(st) ==> Quiet(st') && Honest(parents, st'))
  {
    var st := Run(parents, memo, n, steps).value;
    var listing := ListingOf(st.refs);
    var on := UpToListing(parents, memo, n, steps, st, w, listing);
    var s1 := Move(st, w, Pruning(st.have, listing, st.epoch));
    var on', s2 := PruneOut(parents, memo, n, on, s1, w);
    RunOneMore(parents, memo, n, on', s2, EndPrune(w, []));
    longer := on' + [EndPrune(w, [])];
    EveryRunKeepsInvariant(parents, memo, n, steps);
    if Quiet(st) { QuietCacheIsHonest(parents, memo, n, longer); }
  }

  // ---------------------------------------------------------------------------
  // The conditions are exact
  // ---------------------------------------------------------------------------

  function TipOnRoot(s: Sha): set<Sha> { if s == "tip" then {"root"} else {} }

  /** A writer that is idle gives up an update right after starting it. */
  lemma GiveUp(n: nat, steps: seq<Step>, states: seq<State>) returns (steps': seq<Step>, states': seq<State>)
    requires Trace(TipOnRoot, true, n, steps, states)
    requires var st := states[|steps|]; st.writers != [] && st.writers[0].Idle?
    ensures Trace(TipOnRoot, true, n, steps', states')
    ensures var st := states[|steps|]; states'[|steps'|] == st.(epoch := st.epoch + 1)
  {
    var st := states[|steps|];
    steps', states' := Extend(TipOnRoot, true, n, steps, states, Begin(0));
    steps', states' := Extend(TipOnRoot, true, n, steps', states', Abandon(0));
    assert st.writers[0 := Fetching][0 := Idle] == st.writers;
  }

  /** A complete update of an empty repository. */
  lemma Heal(n: nat, steps: seq<Step>, states: seq<State>) returns (steps': seq<Step>, states': seq<State>)
    requires Trace(TipOnRoot, true, n, steps, states)
    requires var st := states[|steps|];
             st.writers != [] && st.writers[0].Idle? && st.refs == map[] && st.healed <= st.epoch
    ensures Trace(TipOnRoot, true, n, steps', states')
    ensures var st := states[|steps|]; states'[|steps'|] == st.(healed := st.epoch)
  {
    var st := states[|steps|];
    steps', states' := Extend(TipOnRoot, true, n, steps, states, Begin(0));
    steps', states' := Extend(TipOnRoot, true, n, steps', states', EndFetch(0));
    steps', states' := Extend(TipOnRoot, true, n, steps', states', ReadAnchors(0));
    steps', states' := Extend(TipOnRoot, true, n, steps', states', ListRefs(0, []));
    steps', states' := Extend(TipOnRoot, true, n, steps', states', EndPrune(0, []));
    steps', states' := Extend(TipOnRoot, true, n, steps', states', Finish(0));
    assert states'[|steps'|].writers == st.writers;
  }

  /** A fetch that delivers a tip without its parent, and an update that is given up right after it. */
  lemma Spoil(n: nat, steps: seq<Step>, states: seq<State>) returns (steps': seq<Step>, states': seq<State>)
    requires Trace(TipOnRoot, true, n, steps, states)
    requires var st := states[|steps|]; st.writers != [] && st.writers[0].Idle?
    ensures Trace(TipOnRoot, true, n, steps', states')
    ensures var st := states[|steps|];
            states'[|steps'|] ==
            st.(objects := st.objects + {"tip"}, refs := st.refs["main" := "tip"], epoch := st.epoch + 1)
  {
    var st := states[|steps|];
    steps', states' := Extend(TipOnRoot, true, n, steps, states, Begin(0));
    steps', states' := Extend(TipOnRoot, true, n, steps', states', Receive(0, {"tip"}));
    steps', states' := Extend(TipOnRoot, true, n, steps', states', Point(0, "main", "tip"));
    steps', states' := Extend(TipOnRoot, true, n, steps', states', Abandon(0));
    assert states'[|steps'|].writers == st.writers;
  }

  /** A quiet repository that holds and advertises the tip without its parent. */
  function Spoiled(n: nat, epoch: nat, healed: nat): State {
    Start(n).(objects := {"tip"}, refs := map["main" := "tip"], epoch := epoch, healed := healed)
  }

  lemma SpoiledIsDishonest(n: nat, epoch: nat, healed: nat)
    ensures Quiet(Spoiled(n, epoch, healed)) && !Honest(TipOnRoot, Spoiled(n, epoch, healed))
  {
    AncestorSelf(TipOnRoot, "tip");
    AncestorParent(TipOnRoot, "tip", "tip", "root");
    assert "main" in Spoiled(n, epoch, healed).refs;
  }

  lemma {:induction false} GiveUps(n: nat, epoch: nat) returns (steps: seq<Step>, states: seq<State>)
    requires n > 0
    ensures Trace(TipOnRoot, true, n, steps, states) && states[|steps|] == Start(n).(epoch := epoch)
    decreases epoch
  {
    if epoch == 0 {
      steps, states := [], [Start(n)];
    } else {
      steps, states := GiveUps(n, epoch - 1);
      steps, states := GiveUp(n, steps, states);
    }
  }

  /** Updates given up, a recovery, the update that spoils it, and more updates given up. */
  lemma {:induction false} SpoiledTrace(n: nat, epoch: nat, healed: nat) returns (steps: seq<Step>, states: seq<State>)
    requires n > 0 && healed < epoch
    ensures Trace(TipOnRoot, true, n, steps, states) && states[|steps|] == Spoiled(n, epoch, healed)
    decreases epoch
  {
    if epoch == healed + 1 {
      steps, states := GiveUps(n, healed);
      steps, states := Heal(n, steps, states);
      var st := states[|steps|];
      assert st.objects + {"tip"} == {"tip"} && st.refs["main" := "tip"] == map["main" := "tip"];
      steps, states := Spoil(n, steps, states);
    } else {
      steps, states := SpoiledTrace(n, epoch - 1, healed);
      steps, states := GiveUp(n, steps, states);
    }
  }

  /** For any number of given-up updates and any earlier recovery, a ref with missing ancestry can be left. */
  lemma GivenUpUpdateLeavesRef(n: nat, epoch: nat, healed: nat) returns (steps: seq<Step>)
    requires n > 0 && healed < epoch
    ensures ComesTo(TipOnRoot, n, steps, epoch, healed) && !Honest(TipOnRoot, Run(TipOnRoot, true, n, steps).value)
  {
    var states;
    steps, states := SpoiledTrace(n, epoch, healed);
    TraceIsRun(TipOnRoot, true, n, steps, states);
    SpoiledIsDishonest(n, epoch, healed);
  }

  /** The run comes to a quiet moment with these counts. */
  ghost predicate ComesTo(parents: History, n: nat, steps: seq<Step>, epoch: nat, healed: nat) {
    && Run(parents, true, n, steps).Some?
    && var st := Run(parents, true, n, steps).value;
    Quiet(st) && st.epoch == epoch && st.healed == healed
  }

  /**
   With `epoch` updates given up inside their windows, and the last prune pass that has ended listed
   after `healed` of them, the cache is honest at every such quiet moment of every run if and only if
   none was given up since that listing.
   */
  lemma QuietHonestExactly(n: nat, epoch: nat, healed: nat)
    requires n > 0 && healed <= epoch
    ensures (forall parents: History, steps | ComesTo(parents, n, steps, epoch, healed) ::
               Honest(parents, Run(parents, true, n, steps).value))
            <==> healed == epoch
  {
    if healed == epoch {
      forall parents: History, steps | ComesTo(parents, n, steps, epoch, healed)
        ensures Honest(parents, Run(parents, true, n, steps).value)
      {
        QuietCacheIsHonest(parents, true, n, steps);
      }
    } else {
      var steps := GivenUpUpdateLeavesRef(n, epoch, healed);
    }
  }

  // ---------------------------------------------------------------------------
  // Deleting a ref whose ancestry has arrived meanwhile
  // ---------------------------------------------------------------------------

  /** Some writer is about to delete a ref whose whole ancestry is present. */
  ghost predicate Races(parents: History, st: State) {
    exists r | r in st.refs :: Connected(parents, st.objects, st.refs[r]) && AboutToDelete(st, Listed(r, st.refs[r]))
  }

  lemma LoneStep(parents: History, memo: bool, st: State, step: Step)
    requires Enabled(st, step) && |st.writers| == 1
    requires st.writers[0].Deleting? ==> !Connected(parents, st.objects, st.writers[0].found.sha)
    ensures var st' := Apply(parents, memo, st, step);
            && |st'.writers| == 1
            && (st'.writers[0].Deleting? ==> !Connected(parents, st'.objects, st'.writers[0].found.sha))
  {
  }

  /** Nothing arrives between a lone writer's check and its deletion. */
  lemma {:induction false} LoneWriterDoesNotRace(parents: History, memo: bool, steps: seq<Step>, states: seq<State>,
                                                 k: nat)
    requires Trace(parents, memo, 1, steps, states) && k <= |steps|
    ensures |states[k].writers| == 1
    ensures states[k].writers[0].Deleting? ==> !Connected(parents, states[k].objects, states[k].writers[0].found.sha)
  {
    if k > 0 {
      LoneWriterDoesNotRace(parents, memo, steps, states, k - 1);
      assert StepOf(parents, memo, steps, states, k - 1);
      LoneStep(parents, memo, states[k - 1], steps[k - 1]);
    }
  }

  /** One writer finds the tip's parent missing, and another brings it. */
  lemma RacingTrace(n: nat) returns (steps: seq<Step>, states: seq<State>)
    requires n >= 2
    ensures Trace(TipOnRoot, true, n, steps, states)
    ensures var st := states[|steps|];
            && st.objects == {"tip", "root"} && st.refs == map["main" := "tip"] && |st.writers| == n
            && st.writers[0].Deleting? && st.writers[0].found == Listed("main", "tip")
  {
    var listing := [Listed("main", "tip")];
    steps, states := Extend(TipOnRoot, true, n, [], [Start(n)], Begin(0));
    steps, states := Extend(TipOnRoot, true, n, steps, states, Receive(0, {"tip"}));
    steps, states := Extend(TipOnRoot, true, n, steps, states, Point(0, "main", "tip"));
    steps, states := Extend(TipOnRoot, true, n, steps, states, EndFetch(0));
    steps, states := Extend(TipOnRoot, true, n, steps, states, ReadAnchors(0));
    steps, states := Extend(TipOnRoot, true, n, steps, states, ListRefs(0, listing));
    SpoiledIsDishonest(n, 0, 0);
    steps, states := Extend(TipOnRoot, true, n, steps, states, CheckRef(0));
    steps, states := Extend(TipOnRoot, true, n, steps, states, Begin(1));
    steps, states := Extend(TipOnRoot, true, n, steps, states, Receive(1, {"root"}));
  }

  lemma TipAndRootConnected()
    ensures Connected(TipOnRoot, {"tip", "root"}, "tip")
  {
    forall a | Ancestor(TipOnRoot, "tip", a) ensures a in {"tip", "root"} {
      var p :| LineFromTo(TipOnRoot, p, "tip", a);
      ClosedHoldsLine(TipOnRoot, {"tip", "root"}, p);
    }
  }

  /** With one writer no ref with its whole ancestry is ever about to be deleted; with more it can be. */
  lemma NoRaceExactly(n: nat)
    ensures (forall parents: History, memo, steps, states | Trace(parents, memo, n, steps, states) ::
               !Races(parents, states[|steps|]))
            <==> n < 2
  {
    if n < 2 {
      forall parents: History, memo, steps, states | Trace(parents, memo, n, steps, states)
        ensures !Races(parents, states[|steps|])
      {
        TraceKeepsInvariant(parents, memo, n, steps, states, |steps|);
        if n == 1 { LoneWriterDoesNotRace(parents, memo, steps, states, |steps|); }
      }
    } else {
      var steps, states := RacingTrace(n);
      TipAndRootConnected();
      var st := states[|steps|];
      assert st.writers[0].Deleting?;
      assert "main" in st.refs && AboutToDelete(st, Listed("main", "tip"));
    }
  }
}
