/**
 Patching a fetched dependency, from 3rdparty/patch_dependency.py: the applied patch is recorded so
 that another version of it can replace it, and every command may be interrupted between its steps.
 */
module PatchState {
  import opened Sequences

  type Tree = map<string, string>

  datatype Change = Change(before: Option<string>, after: Option<string>)

  /** A patch file, and what it changes: files with equal text change the same. */
  datatype Patch = Patch(text: string, changes: map<string, Change>)

  predicate ValidPatch(p: Patch) {
    p.changes != map[] && forall f | f in p.changes :: p.changes[f].before != p.changes[f].after
  }

  function At(tree: Tree, f: string): Option<string> { if f in tree then Some(tree[f]) else None }

  predicate IsApplied(tree: Tree, p: Patch) { forall f | f in p.changes :: At(tree, f) == p.changes[f].after }

  predicate CanApply(tree: Tree, p: Patch) { forall f | f in p.changes :: At(tree, f) == p.changes[f].before }

  /** The tree with the given files written or removed. */
  function Put(tree: Tree, files: map<string, Option<string>>): (r: Tree)
    ensures forall f :: At(r, f) == if f in files then files[f] else At(tree, f)
  {
    map f | f in tree.Keys + files.Keys && (f in files ==> files[f].Some?) ::
      if f in files then files[f].value else tree[f]
  }

  function Forward(tree: Tree, p: Patch): (r: Tree)
    ensures forall f :: At(r, f) == if f in p.changes then p.changes[f].after else At(tree, f)
  {
    Put(tree, map f | f in p.changes :: p.changes[f].after)
  }

  function Reverse(tree: Tree, p: Patch): (r: Tree)
    ensures forall f :: At(r, f) == if f in p.changes then p.changes[f].before else At(tree, f)
  {
    Put(tree, map f | f in p.changes :: p.changes[f].before)
  }

  lemma SameTree(a: Tree, b: Tree)
    requires forall f :: At(a, f) == At(b, f)
    ensures a == b
  {
    forall f ensures (f in a <==> f in b) && (f in a && f in b ==> a[f] == b[f]) {
      assert At(a, f) == At(b, f);
    }
  }

  lemma NotBoth(tree: Tree, p: Patch)
    requires ValidPatch(p)
    ensures !(IsApplied(tree, p) && CanApply(tree, p))
  {
    var f :| f in p.changes;
  }

  lemma UndoneIsPinned(base: Tree, p: Patch)
    requires CanApply(base, p)
    ensures Reverse(Forward(base, p), p) == base
  {
    SameTree(Reverse(Forward(base, p), p), base);
  }

  // ---------------------------------------------------------------------------
  // The commands, step by step
  // ---------------------------------------------------------------------------

  datatype State = State(tree: Tree, record: Option<Patch>)

  ghost predicate ValidState(s: State) { s.record.Some? ==> ValidPatch(s.record.value) }

  /** The tree without the patch; none if the patch is neither applied nor applicable. */
  function Undo(tree: Tree, p: Patch): Option<Tree> {
    if IsApplied(tree, p) then Some(Reverse(tree, p)) else if CanApply(tree, p) then Some(tree) else None
  }

  /** Where a command stands: what it has done last. */
  datatype Pc = Begin | Undone | Unlinked | Patched | Ended(ok: bool)

  datatype Config = Config(pc: Pc, s: State)

  /** One step of applying a patch; a finished command does nothing. */
  function Step(p: Patch, c: Config): Config {
    var s := c.s;
    match c.pc
    case Begin =>
      if s.record.None? || s.record.value == p then Config(Unlinked, s)
      else if Undo(s.tree, s.record.value).None? then Config(Ended(false), s)
      else Config(Undone, s.(tree := Undo(s.tree, s.record.value).value))
    case Undone => Config(Unlinked, s.(record := None))
    case Unlinked =>
      if IsApplied(s.tree, p) then Config(Patched, s)
      else if !CanApply(s.tree, p) then Config(Ended(false), s)
      else Config(Patched, s.(tree := Forward(s.tree, p)))
    case Patched => Config(Ended(true), s.(record := Some(p)))
    case Ended(_) => c
  }

  function Left(pc: Pc): nat {
    match pc case Begin => 4 case Undone => 3 case Unlinked => 2 case Patched => 1 case Ended(_) => 0
  }

  /** The command from there to its end. */
  function Finish(p: Patch, c: Config): (r: Config)
    ensures r.pc.Ended?
    decreases Left(c.pc)
  {
    if c.pc.Ended? then c else Finish(p, Step(p, c))
  }

  /** The whole command. */
  function Apply(p: Patch, s: State): Config { Finish(p, Config(Begin, s)) }

  /** The first `n` steps of the command. */
  function Steps(p: Patch, c: Config, n: nat): Config {
    if n == 0 then c else Step(p, Steps(p, c, n - 1))
  }

  // ---------------------------------------------------------------------------
  // Interrupting and rerunning one command
  // ---------------------------------------------------------------------------

  datatype Move = Go | Rerun

  /** Steps of the command, interrupted and started again any number of times. */
  function Run(p: Patch, s: State, moves: seq<Move>): Config {
    if moves == [] then Config(Begin, s)
    else
      var c := Run(p, s, moves[..|moves| - 1]);
      match moves[|moves| - 1] case Go => Step(p, c) case Rerun => Config(Begin, c.s)
  }

  /** What is known at each point: enough to start over without harm. */
  ghost predicate PointInvariant(p: Patch, c: Config) {
    match c.pc
    case Begin => true
    case Undone => c.s.record.Some? && c.s.record.value != p && CanApply(c.s.tree, c.s.record.value)
    case Unlinked => c.s.record.None? || c.s.record.value == p
    case Patched => (c.s.record.None? || c.s.record.value == p) && IsApplied(c.s.tree, p)
    case Ended(ok) => Apply(p, c.s) == c
  }

  /** Starting over from any point ends as going on does. */
  lemma {:induction false} StartOver(p: Patch, c: Config)
    requires ValidPatch(p) && ValidState(c.s) && PointInvariant(p, c)
    ensures Apply(p, c.s) == Finish(p, c)
  {
    var first := Step(p, Config(Begin, c.s));
    assert Apply(p, c.s) == Finish(p, first);
    match c.pc {
      case Begin =>
      case Undone =>
        NotBoth(c.s.tree, c.s.record.value);
        assert first == c;
      case Unlinked =>
        assert first == c;
      case Patched =>
        assert Step(p, first) == c;
      case Ended(_) =>
    }
  }

  /** A patch that is applied and recorded stays so. */
  lemma {:induction false} RecordedIsFinal(p: Patch, s: State)
    requires IsApplied(s.tree, p) && s.record == Some(p)
    ensures Apply(p, s) == Config(Ended(true), s)
  {
    var unlinked, patched := Config(Unlinked, s), Config(Patched, s);
    assert Step(p, Config(Begin, s)) == unlinked && Step(p, unlinked) == patched
           && Step(p, patched) == Config(Ended(true), s);
    assert Finish(p, Config(Begin, s)) == Finish(p, unlinked) == Finish(p, patched) ==
             Finish(p, Config(Ended(true), s));
  }

  /** A command that failed fails again. */
  lemma {:induction false} FailureIsFinal(p: Patch, c: Config)
    requires !c.pc.Ended? && PointInvariant(p, c) && Step(p, c).pc == Ended(false)
    ensures Apply(p, c.s) == Step(p, c)
  {
    var first := Step(p, Config(Begin, c.s));
    assert Finish(p, Config(Begin, c.s)) == Finish(p, first);
    if c.pc.Unlinked? { assert first == c && Finish(p, c) == Finish(p, Step(p, c)); }
  }

  lemma {:induction false} StepKeepsPoint(p: Patch, c: Config)
    requires ValidPatch(p) && ValidState(c.s) && PointInvariant(p, c)
    ensures ValidState(Step(p, c).s) && PointInvariant(p, Step(p, c))
  {
    var next := Step(p, c);
    if c.pc.Patched? { RecordedIsFinal(p, next.s); }
    if !c.pc.Ended? && next.pc == Ended(false) { FailureIsFinal(p, c); }
  }

  /**
   However often the command is interrupted and rerun, what it will come to is what it would have
   come to from the first state without interruption.
   */
  lemma {:induction false} RunKeepsOutcome(p: Patch, s: State, moves: seq<Move>)
    requires ValidPatch(p) && ValidState(s)
    ensures var c := Run(p, s, moves);
            && ValidState(c.s) && PointInvariant(p, c)
            && Finish(p, c) == Apply(p, s) && Apply(p, c.s) == Apply(p, s)
    decreases |moves|
  {
    if moves != [] {
      var before := Run(p, s, moves[..|moves| - 1]);
      RunKeepsOutcome(p, s, moves[..|moves| - 1]);
      if moves[|moves| - 1] == Go {
        StepKeepsPoint(p, before);
        StartOver(p, Step(p, before));
      }
    }
  }

  /** So a run that ends is in the state of an uninterrupted run, with its verdict. */
  lemma InterruptedEndsTheSame(p: Patch, s: State, moves: seq<Move>)
    requires ValidPatch(p) && ValidState(s) && Run(p, s, moves).pc.Ended?
    ensures Run(p, s, moves) == Apply(p, s)
  {
    RunKeepsOutcome(p, s, moves);
  }

  lemma OneMoreMove(p: Patch, s: State, moves: seq<Move>, move: Move)
    ensures Run(p, s, moves + [move]) ==
              var c := Run(p, s, moves);
              match move case Go => Step(p, c) case Rerun => Config(Begin, c.s)
  {
    assert (moves + [move])[..|moves|] == moves;
  }

  lemma {:induction false} GoingOnEnds(p: Patch, s: State, moves: seq<Move>, n: nat)
    ensures n >= Left(Run(p, s, moves).pc) ==> Run(p, s, moves + seq(n, _ => Go)).pc.Ended?
    decreases n
  {
    if n == 0 {
      assert moves + seq(n, _ => Go) == moves;
    } else {
      OneMoreMove(p, s, moves, Go);
      GoingOnEnds(p, s, moves + [Go], n - 1);
      assert moves + seq(n, _ => Go) == moves + [Go] + seq(n - 1, _ => Go);
    }
  }

  /** And every run, however interrupted, ends there with four more steps. */
  lemma InterruptedRunEnds(p: Patch, s: State, moves: seq<Move>)
    requires ValidPatch(p) && ValidState(s)
    ensures Run(p, s, moves + [Go, Go, Go, Go]) == Apply(p, s)
  {
    GoingOnEnds(p, s, moves, 4);
    assert seq(4, _ => Go) == [Go, Go, Go, Go];
    InterruptedEndsTheSame(p, s, moves + [Go, Go, Go, Go]);
  }

  /** The command succeeds exactly when both patches are out of the way or in place, and then records it. */
  lemma {:induction false} ApplyOutcome(p: Patch, s: State)
    ensures var r := Apply(p, s);
            var undoes := s.record.Some? && s.record.value != p;
            && (undoes && Undo(s.tree, s.record.value).None? ==> r == Config(Ended(false), s))
            && (!(undoes && Undo(s.tree, s.record.value).None?) ==>
                  var tree := if undoes then Undo(s.tree, s.record.value).value else s.tree;
                  var record := if undoes then None else s.record;
                  && (IsApplied(tree, p) ==> r == Config(Ended(true), State(tree, Some(p))))
                  && (!IsApplied(tree, p) && CanApply(tree, p) ==>
                        r == Config(Ended(true), State(Forward(tree, p), Some(p))))
                  && (!IsApplied(tree, p) && !CanApply(tree, p) ==> r == Config(Ended(false), State(tree, record))))
  {
    var c0 := Config(Begin, s);
    var c1 := Step(p, c0);
    var c2 := if c1.pc.Undone? then Step(p, c1) else c1;
    var c3 := Step(p, c2);
    assert Finish(p, c0) == Finish(p, c1) == Finish(p, c2) == Finish(p, c3) == Finish(p, Step(p, c3));
  }

  /** A failing command leaves the tree alone, but for undoing the recorded patch if it was applied. */
  lemma FailureIsHarmless(p: Patch, s: State)
    requires !Apply(p, s).pc.ok
    ensures var tree := Apply(p, s).s.tree;
            || tree == s.tree
            || (s.record.Some? && s.record.value != p && IsApplied(s.tree, s.record.value)
                && tree == Reverse(s.tree, s.record.value))
  {
    ApplyOutcome(p, s);
  }

  /** Neither command nor interruption touches a file that neither patch names. */
  lemma {:induction false} OtherFilesKept(p: Patch, s: State, moves: seq<Move>, f: string)
    requires f !in p.changes && (s.record.Some? ==> f !in s.record.value.changes)
    ensures var c := Run(p, s, moves);
            && At(c.s.tree, f) == At(s.tree, f)
            && (c.s.record.Some? ==> f !in c.s.record.value.changes)
    decreases |moves|
  {
    if moves != [] { OtherFilesKept(p, s, moves[..|moves| - 1], f); }
  }

  // ---------------------------------------------------------------------------
  // Pinned sources
  // ---------------------------------------------------------------------------

  /** The checkout next to the patch state: which commit the tree was checked out at. */
  datatype World = World(head: string, s: State)

  /** One step of moving the checkout to another commit. */
  function UpdateStep(commits: map<string, Tree>, target: string, pc: Pc, w: World): (r: (Pc, World))
    requires w.head in commits && target in commits
  {
    var s := w.s;
    match pc
    case Begin =>
      if w.head == target then (Ended(true), w)
      else if s.record.None? then (Unlinked, w)
      else if Undo(s.tree, s.record.value).None? then (Ended(false), w)
      else (Undone, w.(s := s.(tree := Undo(s.tree, s.record.value).value)))
    case Undone => (Unlinked, w.(s := s.(record := None)))
    case Unlinked =>
      if s.tree != commits[w.head] then (Ended(false), w)
      else (Ended(true), World(target, s.(tree := commits[target])))
    case Patched => (Ended(true), w)
    case Ended(_) => (pc, w)
  }

  function UpdateSteps(commits: map<string, Tree>, target: string, w: World, n: nat): (r: (Pc, World))
    requires w.head in commits && target in commits
    ensures r.1.head in commits
  {
    if n == 0 then (Begin, w)
    else var c := UpdateSteps(commits, target, w, n - 1); UpdateStep(commits, target, c.0, c.1)
  }

  /** The whole update. */
  lemma UpdateOutcome(commits: map<string, Tree>, target: string, w: World)
    requires w.head in commits && target in commits
    ensures var r := UpdateSteps(commits, target, w, 4);
            && (w.head == target ==> r == (Ended(true), w))
            && (w.head != target && w.s.record.Some? && Undo(w.s.tree, w.s.record.value).None? ==>
                r == (Ended(false), w))
            && (w.head != target && (w.s.record.Some? ==> Undo(w.s.tree, w.s.record.value).Some?) ==>
                  var tree := if w.s.record.Some? then Undo(w.s.tree, w.s.record.value).value else w.s.tree;
                  r == if tree == commits[w.head] then (Ended(true), World(target, State(commits[target], None)))
                       else (Ended(false), World(w.head, State(tree, None))))
  {
    var c1 := UpdateStep(commits, target, Begin, w);
    var c2 := UpdateStep(commits, target, c1.0, c1.1);
    var c3 := UpdateStep(commits, target, c2.0, c2.1);
    assert UpdateSteps(commits, target, w, 1) == c1;
    assert UpdateSteps(commits, target, w, 2) == c2;
    assert UpdateSteps(commits, target, w, 3) == c3;
  }

  /** A command that does its first steps only; with four of them it is complete. */
  datatype Event = ApplyFor(patch: Patch, steps: nat) | UpdateFor(target: string, steps: nat)

  function After(commits: map<string, Tree>, w: World, e: Event): (r: World)
    requires w.head in commits && (e.UpdateFor? ==> e.target in commits)
    ensures r.head in commits
  {
    match e
    case ApplyFor(p, n) => w.(s := Steps(p, Config(Begin, w.s), n).s)
    case UpdateFor(target, n) => UpdateSteps(commits, target, w, n).1
  }

  /**
   The tree is the pinned sources, or those with the recorded patch. The one exception is a patch
   that was applied by a command interrupted before it could record it: it is `pending`.
   */
  ghost predicate Pinned(base: Tree, s: State, pending: Option<Patch>) {
    match pending
    case None =>
      (s.record.None? ==> s.tree == base) &&
      (s.record.Some? ==>
         && ValidPatch(s.record.value) && CanApply(base, s.record.value)
         && (s.tree == base || s.tree == Forward(base, s.record.value)))
    case Some(p) => ValidPatch(p) && CanApply(base, p) && s.record.None? && s.tree == Forward(base, p)
  }

  /** Undoing the record of a pinned tree gives the pinned sources. */
  lemma PinnedUndoes(base: Tree, s: State)
    requires Pinned(base, s, None) && s.record.Some?
    ensures Undo(s.tree, s.record.value) == Some(base)
  {
    NotBoth(base, s.record.value);
    UndoneIsPinned(base, s.record.value);
  }

  /** Where the steps of an apply lead from pinned sources. */
  ghost predicate ApplyPoint(base: Tree, p: Patch, c: Config) {
    match c.pc
    case Begin => false
    case Undone => c.s.tree == base && Pinned(base, c.s, None)
    case Unlinked => Pinned(base, c.s, None) && (c.s.record.None? || c.s.record.value == p)
    case Patched => c.s.tree == Forward(base, p) && (c.s.record.None? || c.s.record.value == p)
    case Ended(ok) => ok && c.s == State(Forward(base, p), Some(p))
  }

  /** The steps left when `n` have been done, at most. */
  function Remaining(n: nat): nat { if n < 4 then 4 - n else 0 }

  lemma {:induction false} ApplyStarts(base: Tree, p: Patch, s: State)
    requires Pinned(base, s, None)
    ensures var c := Step(p, Config(Begin, s)); ApplyPoint(base, p, c) && Left(c.pc) <= 3
  {
    if s.record.Some? { PinnedUndoes(base, s); }
  }

  lemma {:induction false} ApplyGoesOn(base: Tree, p: Patch, c: Config)
    requires ValidPatch(p) && CanApply(base, p) && ApplyPoint(base, p, c)
    ensures ApplyPoint(base, p, Step(p, c)) && (Left(Step(p, c).pc) < Left(c.pc) || c.pc.Ended?)
  {
    NotBoth(base, p);
  }

  lemma {:induction false} ApplyFromPinned(base: Tree, p: Patch, s: State, n: nat)
    requires ValidPatch(p) && CanApply(base, p) && Pinned(base, s, None) && n > 0
    ensures var c := Steps(p, Config(Begin, s), n); ApplyPoint(base, p, c) && Left(c.pc) <= Remaining(n)
  {
    if n == 1 {
      ApplyStarts(base, p, s);
      assert Steps(p, Config(Begin, s), 0) == Config(Begin, s);
    } else {
      ApplyFromPinned(base, p, s, n - 1);
      ApplyGoesOn(base, p, Steps(p, Config(Begin, s), n - 1));
    }
  }

  /** A pending patch stays until the command that applied it runs again and records it. */
  lemma {:induction false} ApplyFromPending(base: Tree, p: Patch, s: State, n: nat)
    requires Pinned(base, s, Some(p))
    ensures var c := Steps(p, Config(Begin, s), n);
            && Left(c.pc) <= Remaining(n)
            && if c.pc.Ended? then c == Config(Ended(true), s.(record := Some(p))) else c.s == s && !c.pc.Undone?
  {
    if n > 0 { ApplyFromPending(base, p, s, n - 1); }
  }

  /** Where the steps of an update lead from pinned sources `start`. */
  ghost predicate UpdatePoint(commits: map<string, Tree>, target: string, start: World, pc: Pc, w: World)
    requires start.head in commits && target in commits
  {
    match pc
    case Begin => w == start && Pinned(commits[start.head], w.s, None)
    case Undone =>
      && w.head == start.head != target && w.s.tree == commits[start.head]
      && Pinned(commits[start.head], w.s, None)
    case Unlinked => w.head == start.head != target && w.s == State(commits[start.head], None)
    case Patched => false
    case Ended(ok) => ok && w == if start.head == target then start else World(target, State(commits[target], None))
  }

  lemma {:induction false} UpdateGoesOn(commits: map<string, Tree>, target: string, start: World, pc: Pc, w: World)
    requires start.head in commits && target in commits && w.head in commits
    requires UpdatePoint(commits, target, start, pc, w)
    ensures var (pc', w') := UpdateStep(commits, target, pc, w);
            UpdatePoint(commits, target, start, pc', w') && (Left(pc') < Left(pc) || pc.Ended?)
  {
    if pc.Begin? && w.s.record.Some? { PinnedUndoes(commits[w.head], w.s); }
  }

  /** An update undoes the recorded patch before it moves, and moves only from the pinned sources. */
  lemma {:induction false} UpdateFromPinned(commits: map<string, Tree>, target: string, w: World, n: nat)
    requires w.head in commits && target in commits && Pinned(commits[w.head], w.s, None)
    ensures var (pc, w') := UpdateSteps(commits, target, w, n);
            UpdatePoint(commits, target, w, pc, w') && Left(pc) <= Remaining(n)
  {
    if n > 0 {
      UpdateFromPinned(commits, target, w, n - 1);
      var c := UpdateSteps(commits, target, w, n - 1);
      UpdateGoesOn(commits, target, w, c.0, c.1);
    }
  }

  lemma PatchedIsNotPinned(base: Tree, p: Patch)
    requires ValidPatch(p) && CanApply(base, p)
    ensures Forward(base, p) != base
  {
    NotBoth(base, p);
  }

  /** With a patch pending, an update finds changes it did not record, and refuses to move. */
  lemma {:induction false} UpdateFromPending(commits: map<string, Tree>, target: string, w: World, p: Patch, n: nat)
    requires w.head in commits && target in commits && Pinned(commits[w.head], w.s, Some(p))
    ensures var (pc, w') := UpdateSteps(commits, target, w, n);
            && Left(pc) <= Remaining(n) && w' == w && !pc.Undone? && !pc.Patched?
            && (pc.Ended? ==> pc.ok == (w.head == target))
  {
    if n > 0 {
      UpdateFromPending(commits, target, w, p, n - 1);
      PatchedIsNotPinned(commits[w.head], p);
    }
  }

  // ---------------------------------------------------------------------------
  // Runs of commands, each complete or interrupted
  // ---------------------------------------------------------------------------

  datatype Tracked = Tracked(w: World, pending: Option<Patch>)

  function Track(commits: map<string, Tree>, t: Tracked, e: Event): (r: Tracked)
    requires t.w.head in commits && (e.UpdateFor? ==> e.target in commits)
    ensures r.w.head in commits
  {
    var w := After(commits, t.w, e);
    match e
    case UpdateFor(_, _) => Tracked(w, t.pending)
    case ApplyFor(p, n) =>
      var pc := Steps(p, Config(Begin, t.w.s), n).pc;
      Tracked(w, if pc.Ended? then None else if pc.Patched? && w.s.record.None? then Some(p) else t.pending)
  }

  /** Patches fit the commit they are applied to, and a pending patch is applied again before another. */
  ghost predicate Allowed(commits: map<string, Tree>, t: Tracked, e: Event)
    requires t.w.head in commits
  {
    match e
    case UpdateFor(target, _) => target in commits
    case ApplyFor(p, _) =>
      ValidPatch(p) && CanApply(commits[t.w.head], p) && (t.pending.Some? ==> t.pending.value == p)
  }

  lemma {:induction false} EventKeepsPinned(commits: map<string, Tree>, t: Tracked, e: Event)
    requires t.w.head in commits && Allowed(commits, t, e)
    requires Pinned(commits[t.w.head], t.w.s, t.pending)
    ensures var t' := Track(commits, t, e); Pinned(commits[t'.w.head], t'.w.s, t'.pending)
  {
    var base := commits[t.w.head];
    match e
    case UpdateFor(target, n) =>
      if t.pending.None? { UpdateFromPinned(commits, target, t.w, n); }
      else { UpdateFromPending(commits, target, t.w, t.pending.value, n); }
    case ApplyFor(p, n) =>
      if t.pending.Some? { ApplyFromPending(base, p, t.w.s, n); }
      else if n > 0 { ApplyFromPinned(base, p, t.w.s, n); }
  }

  /** The worlds that such runs reach, from a fresh checkout. */
  ghost predicate Reached(commits: map<string, Tree>, head: string, events: seq<Event>, t: Tracked)
    requires head in commits
    decreases |events|
  {
    if events == [] then t == Tracked(World(head, State(commits[head], None)), None)
    else
      exists before: Tracked ::
        && Reached(commits, head, events[..|events| - 1], before)
        && before.w.head in commits && Allowed(commits, before, events[|events| - 1])
        && t == Track(commits, before, events[|events| - 1])
  }

  lemma {:induction false} RunKeepsPinned(commits: map<string, Tree>, head: string, events: seq<Event>, t: Tracked)
    requires head in commits && Reached(commits, head, events, t)
    ensures t.w.head in commits && Pinned(commits[t.w.head], t.w.s, t.pending)
    decreases |events|
  {
    if events != [] {
      var last := events[|events| - 1];
      var before: Tracked :|
        && Reached(commits, head, events[..|events| - 1], before)
        && before.w.head in commits && Allowed(commits, before, last) && t == Track(commits, before, last);
      RunKeepsPinned(commits, head, events[..|events| - 1], before);
      EventKeepsPinned(commits, before, last);
    }
  }

  /** After any such run, a complete apply leaves the pinned sources plus the patch, recorded. */
  lemma {:induction false} CompleteApply(commits: map<string, Tree>, head: string, events: seq<Event>, t: Tracked,
                                         p: Patch, n: nat)
    requires head in commits && Reached(commits, head, events, t) && n >= 4
    requires t.w.head in commits && Allowed(commits, t, ApplyFor(p, n))
    ensures Steps(p, Config(Begin, t.w.s), n) == Config(Ended(true), State(Forward(commits[t.w.head], p), Some(p)))
  {
    RunKeepsPinned(commits, head, events, t);
    var base := commits[t.w.head];
    if t.pending.Some? { ApplyFromPending(base, p, t.w.s, n); } else { ApplyFromPinned(base, p, t.w.s, n); }
  }

  /**
   And a complete update leaves the other commit's sources, unless a patch is pending, when it fails
   and changes nothing.
   */
  lemma {:induction false} CompleteUpdate(commits: map<string, Tree>, head: string, events: seq<Event>, t: Tracked,
                                          target: string, n: nat)
    requires head in commits && Reached(commits, head, events, t) && n >= 4
    requires t.w.head in commits && target in commits && target != t.w.head
    ensures UpdateSteps(commits, target, t.w, n) ==
            if t.pending.None? then (Ended(true), World(target, State(commits[target], None))) else (Ended(false), t.w)
  {
    RunKeepsPinned(commits, head, events, t);
    if t.pending.None? { UpdateFromPinned(commits, target, t.w, n); }
    else { UpdateFromPending(commits, target, t.w, t.pending.value, n); }
  }

  // ---------------------------------------------------------------------------
  // What happens when another patch follows a pending one
  // ---------------------------------------------------------------------------

  /**
   A patch that follows a pending one on the pinned sources ends as it should if and only if both
   change the same; and it reports success on a wrong tree if and only if they change no file in
   common, or it is a proper part of the pending one.
   */
  lemma {:induction false} PendingThenAnotherExactly(base: Tree, p: Patch, q: Patch)
    requires ValidPatch(p) && ValidPatch(q) && CanApply(base, p) && CanApply(base, q)
    ensures var r := Apply(q, State(Forward(base, p), None));
            && (r == Config(Ended(true), State(Forward(base, q), Some(q))) <==> p.changes == q.changes)
            && (r.pc.ok && r.s.tree != Forward(base, q) <==>
                  || p.changes.Keys !! q.changes.Keys
                  || (q.changes.Keys < p.changes.Keys && IsApplied(Forward(base, p), q)))
  {
    var tree := Forward(base, p);
    ApplyOutcome(q, State(tree, None));
  }

  // ---------------------------------------------------------------------------
  // The commands
  // ---------------------------------------------------------------------------

  class Dependency {
    const commits: map<string, Tree>
    var head: string
    var tree: Tree
    var record: Option<Patch>

    function Patched(): State
      reads this
    {
      State(tree, record)
    }

    constructor (commits: map<string, Tree>, head: string)
      requires head in commits
      ensures this.commits == commits && this.head == head && Patched() == State(commits[head], None)
    {
      this.commits, this.head := commits, head;
      tree, record := commits[head], None;
    }

    method UndoPatch(p: Patch) returns (ok: bool)
      modifies this`tree
      ensures ok == Undo(old(tree), p).Some?
      ensures tree == if ok then Undo(old(tree), p).value else old(tree)
    {
      if IsApplied(tree, p) {
        tree := Reverse(tree, p);
      } else if !CanApply(tree, p) {
        return false;
      }
      return true;
    }

    method CmdApply(p: Patch) returns (ok: bool)
      modifies this`tree, this`record
      ensures Config(Ended(ok), Patched()) == Apply(p, old(Patched()))
    {
      ApplyOutcome(p, Patched());
      if record.Some? && record.value != p {
        ok := UndoPatch(record.value);
        if !ok { return; }
        record := None;
      }
      if !IsApplied(tree, p) {
        if !CanApply(tree, p) { return false; }
        tree := Forward(tree, p);
      }
      record := Some(p);
      return true;
    }

    method CmdUpdate(target: string) returns (ok: bool)
      requires head in commits && target in commits
      modifies this
      ensures head in commits
      ensures (Ended(ok), World(head, Patched())) == UpdateSteps(commits, target, old(World(head, Patched())), 4)
    {
      UpdateOutcome(commits, target, World(head, Patched()));
      if head == target { return true; }
      if record.Some? {
        ok := UndoPatch(record.value);
        if !ok { return; }
        record := None;
      }
      if tree != commits[head] { return false; }
      head, tree := target, commits[target];
      return true;
    }
  }
}
