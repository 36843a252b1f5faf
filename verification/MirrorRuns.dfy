/**
 Runs of the tree mirror: the source changes, syncs happen, time goes on. File times come from a
 clock that may lag behind by up to `lag`; nothing is written while a sync runs.
 */
module MirrorRuns {
  import opened TreeMirror
  import MirrorWalk

  datatype World = World(inodes: map<nat, Inode>, src: Tree, others: Tree, dst: Tree, clock: real)

  datatype Event =
    | Change(time: real, written: set<nat>)
    | Sync(copyOnly: bool, excluded: string -> bool, now: real, round: real -> real)

  ghost predicate Sane(w: World) {
    && WellFormed(w.src) && WellFormed(w.dst)
    && Known(w.src, w.inodes) && Known(w.others, w.inodes) && Known(w.dst, w.inodes)
  }

  /**
   The source changes at some time: the inodes of `written` are written to, through source files or
   as new files, and get a time at most `lag` old; the source tree changes arbitrarily, except that
   a file at a new place has been written.
   */
  ghost predicate ChangeStep(lag: real, w: World, e: Event, w': World) {
    && e.Change? && w.clock <= e.time <= w'.clock
    && w'.dst == w.dst && w'.others == w.others && Sane(w')
    && (forall i | i in e.written && i in w.inodes :: Links(w.src, i) != {})
    && (forall i | i in e.written && i in w'.inodes :: e.time - lag <= w'.inodes[i].mtime <= e.time)
    && (forall i | i in w.inodes && i !in e.written :: i in w'.inodes && w'.inodes[i] == w.inodes[i])
    && forall p | p in w'.src && w'.src[p].File? ::
         w'.src[p].ino in e.written || (p in w.src && w.src[p] == w'.src[p] && w.src[p].ino in w.inodes)
  }

  /** A sync, as the mirror's contract describes it. */
  ghost predicate SyncStep(w: World, e: Event, w': World) {
    && e.Sync? && RoundsDown(e.round) && w.clock <= e.now <= w'.clock
    && w'.src == w.src && w'.others == w.others && Sane(w')
    && Mirrors(w.src, e.excluded, w'.dst) && InodesKept(w.inodes, w'.inodes)
    && forall p | p in w'.dst && w'.dst[p].File? ::
         FileDone(w.src, w.others, p, e.copyOnly, e.now, e.round, w.dst, w.inodes, w'.dst, w'.inodes)
  }

  ghost predicate Step(lag: real, w: World, e: Event, w': World) {
    if e.Change? then ChangeStep(lag, w, e, w') else SyncStep(w, e, w')
  }

  /** No destination yet, and no source time in the future. */
  ghost predicate Initial(w: World) {
    Sane(w) && w.dst == map[] && SourceTimesPast(w)
  }

  ghost predicate SourceTimesPast(w: World)
    requires Sane(w)
  {
    forall p | p in w.src && w.src[p].File? :: w.inodes[w.src[p].ino].mtime <= w.clock
  }

  ghost predicate StepAt(lag: real, worlds: seq<World>, events: seq<Event>, k: nat)
    requires k < |events| < |worlds|
  {
    Step(lag, worlds[k], events[k], worlds[k + 1])
  }

  ghost predicate IsRun(lag: real, worlds: seq<World>, events: seq<Event>) {
    && |worlds| == |events| + 1
    && Initial(worlds[0])
    && forall k: nat | k < |events| :: StepAt(lag, worlds, events, k)
  }

  ghost predicate CopiesOnly(events: seq<Event>) {
    forall e | e in events :: e.Sync? ==> e.copyOnly
  }

  /** Every destination file has the contents of the source file at its place. */
  ghost predicate Fresh(w: World) {
    forall p | p in w.dst && w.dst[p].File? ::
      && p in w.src && w.src[p].File? && w.src[p].ino in w.inodes && w.dst[p].ino in w.inodes
      && w.inodes[w.dst[p].ino].content == w.inodes[w.src[p].ino].content
  }

  ghost predicate EverySyncFresh(worlds: seq<World>, events: seq<Event>)
    requires |worlds| == |events| + 1
  {
    forall k: nat | k < |events| :: FreshAfter(worlds, events, k)
  }

  ghost predicate FreshAfter(worlds: seq<World>, events: seq<Event>, k: nat)
    requires k < |events| < |worlds|
  {
    events[k].Sync? ==> Fresh(worlds[k + 1])
  }

  // ---------------------------------------------------------------------------
  // The invariant of copy-only runs
  // ---------------------------------------------------------------------------

  /**
   A copy shares no inode with the source; its time is older than any time a later write can get;
   and it differs from its source only if the source's time says so.
   */
  ghost predicate CopyTrustworthy(lag: real, w: World, p: Path)
    requires Sane(w) && p in w.dst && w.dst[p].File?
  {
    var copy := w.inodes[w.dst[p].ino];
    && Links(w.src, w.dst[p].ino) == {}
    && copy.mtime + TOLERANCE <= w.clock - lag
    && (p in w.src && w.src[p].File? ==>
          var source := w.inodes[w.src[p].ino];
          source.content == copy.content || source.mtime >= copy.mtime + TOLERANCE)
  }

  ghost predicate Invariant(lag: real, w: World) {
    && Sane(w) && SourceTimesPast(w)
    && forall p | p in w.dst && w.dst[p].File? :: CopyTrustworthy(lag, w, p)
  }

  lemma ChangeKeepsInvariant(lag: real, w: World, e: Event, w': World)
    requires Invariant(lag, w) && ChangeStep(lag, w, e, w')
    ensures Invariant(lag, w')
  {
    forall p | p in w'.dst && w'.dst[p].File? ensures CopyTrustworthy(lag, w', p) {
      assert CopyTrustworthy(lag, w, p);
      var i := w.dst[p].ino;
      assert i !in e.written;
      assert Links(w'.src, i) == {} by {
        forall q | q in w'.src && w'.src[q] == File(i) ensures q in Links(w.src, i) {}
      }
    }
  }

  lemma SyncKeepsInvariant(lag: real, w: World, e: Event, w': World)
    requires Invariant(lag, w) && SyncStep(w, e, w') && e.copyOnly
    requires 0.0 <= lag <= WINDOW - TOLERANCE
    ensures Invariant(lag, w') && Fresh(w')
  {
    forall p | p in w'.dst && w'.dst[p].File?
      ensures CopyTrustworthy(lag, w', p) && p in w.src && w.src[p].File?
      ensures w'.inodes[w'.dst[p].ino].content == w'.inodes[w.src[p].ino].content
    {
      var source, copy := w'.inodes[w.src[p].ino], w'.inodes[w'.dst[p].ino];
      assert source == w.inodes[w.src[p].ino];
      if w'.dst[p].ino !in w.inodes {
        assert copy == Inode(source.content, Stamp(e.round, e.now, source.mtime));
        StampIsOld(e.round, e.now, source.mtime);
      } else {
        assert CopyTrustworthy(lag, w, p);
      }
    }
  }

  /** A copy's time is at least the window behind the sync that made it. */
  lemma StampIsOld(round: real -> real, now: real, mtime: real)
    requires RoundsDown(round) && mtime <= now
    ensures Stamp(round, now, mtime) <= now - WINDOW
  {
    assert round(mtime) <= mtime && round(mtime - WINDOW) <= mtime - WINDOW;
  }

  lemma StepKeepsInvariant(lag: real, w: World, e: Event, w': World)
    requires Invariant(lag, w) && Step(lag, w, e, w') && (e.Sync? ==> e.copyOnly)
    requires 0.0 <= lag <= WINDOW - TOLERANCE
    ensures Invariant(lag, w') && (e.Sync? ==> Fresh(w'))
  {
    if e.Change? { ChangeKeepsInvariant(lag, w, e, w'); } else { SyncKeepsInvariant(lag, w, e, w'); }
  }

  lemma NextKeepsInvariant(lag: real, worlds: seq<World>, events: seq<Event>, k: nat)
    requires IsRun(lag, worlds, events) && CopiesOnly(events) && k < |events| && Invariant(lag, worlds[k])
    requires 0.0 <= lag <= WINDOW - TOLERANCE
    ensures Invariant(lag, worlds[k + 1]) && FreshAfter(worlds, events, k)
  {
    assert events[k] in events;
    assert StepAt(lag, worlds, events, k);
    StepKeepsInvariant(lag, worlds[k], events[k], worlds[k + 1]);
  }

  lemma InitialIsInvariant(lag: real, w: World)
    requires Initial(w)
    ensures Invariant(lag, w)
  {
  }

  lemma {:induction false} RunKeepsInvariant(lag: real, worlds: seq<World>, events: seq<Event>, k: nat)
    requires IsRun(lag, worlds, events) && CopiesOnly(events) && k <= |events|
    requires 0.0 <= lag <= WINDOW - TOLERANCE
    ensures Invariant(lag, worlds[k])
  {
    if k == 0 {
      InitialIsInvariant(lag, worlds[0]);
    } else {
      var m := k - 1;
      assert worlds[k] == worlds[m + 1];
      RunKeepsInvariant(lag, worlds, events, m);
      NextKeepsInvariant(lag, worlds, events, m);
    }
  }

  /** With copies only, every sync leaves every destination file equal to its source. */
  lemma {:induction false} CopyRunsStayFresh(lag: real, worlds: seq<World>, events: seq<Event>)
    requires IsRun(lag, worlds, events) && CopiesOnly(events)
    requires 0.0 <= lag <= WINDOW - TOLERANCE
    ensures EverySyncFresh(worlds, events)
  {
    forall k: nat | k < |events| ensures FreshAfter(worlds, events, k) {
      RunKeepsInvariant(lag, worlds, events, k);
      NextKeepsInvariant(lag, worlds, events, k);
    }
  }

  // ---------------------------------------------------------------------------
  // The bound on the lag is exact
  // ---------------------------------------------------------------------------

  const OLD: seq<bv8> := [0]
  const NEW: seq<bv8> := [1]
  const ROOT: Path := []
  const LEAF: Path := ["f"]

  function OneFile(i: nat): Tree { map[ROOT := Dir, LEAF := File(i)] }

  /** A destination copy of a file last written two seconds before the sync, and a late rewrite of the
      source that gets almost the same time. */
  function LateWorlds(mtime: real): seq<World> {
    [ World(map[0 := Inode(OLD, 0.0)], OneFile(0), map[], map[], WINDOW),
      World(map[0 := Inode(OLD, 0.0), 1 := Inode(OLD, 0.0)], OneFile(0), map[], OneFile(1), WINDOW),
      World(map[0 := Inode(NEW, mtime), 1 := Inode(OLD, 0.0)], OneFile(0), map[], OneFile(1), WINDOW),
      World(map[0 := Inode(NEW, mtime), 1 := Inode(OLD, 0.0)], OneFile(0), map[], OneFile(1), 10.0) ]
  }

  predicate Nothing(name: string) { false }
  function Exactly(t: real): real { t }

  function LateEvents(): seq<Event> {
    [ Sync(true, Nothing, WINDOW, Exactly), Change(WINDOW, {0}), Sync(true, Nothing, 10.0, Exactly) ]
  }

  lemma OneFileFacts(i: nat)
    ensures WellFormed(OneFile(i))
    ensures forall p :: p in OneFile(i) <==> p == ROOT || p == LEAF
    ensures OneFile(i)[ROOT] == Dir && OneFile(i)[LEAF] == File(i)
    ensures forall j :: Links(OneFile(i), j) == if j == i then {LEAF} else {}
  {
    assert LEAF[..|LEAF| - 1] == ROOT;
  }

  lemma OneFileMirrors(i: nat, k: nat)
    ensures Mirrors(OneFile(i), Nothing, OneFile(k))
  {
    OneFileFacts(i);
    OneFileFacts(k);
  }

  lemma LateStart(mtime: real)
    ensures Initial(LateWorlds(mtime)[0])
  {
    OneFileFacts(0);
  }

  lemma LateFirstSync(lag: real, mtime: real)
    ensures var ws, es := LateWorlds(mtime), LateEvents(); Step(lag, ws[0], es[0], ws[1])
  {
    OneFileFacts(0);
    OneFileFacts(1);
    OneFileMirrors(0, 1);
    NoLinks();
  }

  lemma LateChange(lag: real, mtime: real)
    requires mtime <= WINDOW && WINDOW - lag <= mtime
    ensures var ws, es := LateWorlds(mtime), LateEvents(); Step(lag, ws[1], es[1], ws[2])
  {
    OneFileFacts(0);
    OneFileFacts(1);
  }

  lemma LateSecondSync(lag: real, mtime: real)
    requires 0.0 <= mtime < TOLERANCE
    ensures var ws, es := LateWorlds(mtime), LateEvents(); Step(lag, ws[2], es[2], ws[3])
  {
    OneFileFacts(0);
    OneFileFacts(1);
    OneFileMirrors(0, 1);
    NoLinks();
  }

  lemma NoLinks()
    ensures var none: Tree := map[]; forall j :: Links(none, j) == {}
  {
  }

  /** A destination file with other contents than its source. */
  lemma StaleLeaf(w: World, i: nat, k: nat)
    requires w.src == OneFile(i) && w.dst == OneFile(k) && i in w.inodes && k in w.inodes
    requires w.inodes[i].content == NEW && w.inodes[k].content == OLD
    ensures !Fresh(w)
  {
    OneFileFacts(i);
    OneFileFacts(k);
    assert LEAF in w.dst && NEW[0] != OLD[0];
  }

  lemma ThreeSteps(lag: real, ws: seq<World>, es: seq<Event>)
    requires |es| == 3 && |ws| == 4 && Initial(ws[0])
    requires Step(lag, ws[0], es[0], ws[1]) && Step(lag, ws[1], es[1], ws[2]) && Step(lag, ws[2], es[2], ws[3])
    ensures IsRun(lag, ws, es)
  {
    forall k: nat | k < 3 ensures StepAt(lag, ws, es, k) {
      if k == 0 {
        assert StepAt(lag, ws, es, 0);
      } else if k == 1 {
        assert StepAt(lag, ws, es, 1);
      } else {
        assert StepAt(lag, ws, es, 2);
      }
    }
  }

  lemma StaleAtEnd(ws: seq<World>, es: seq<Event>)
    requires |es| == 3 && |ws| == 4 && es[2].Sync? && !Fresh(ws[3])
    ensures !EverySyncFresh(ws, es)
  {
    assert !FreshAfter(ws, es, 2);
  }

  lemma LateRun(lag: real, mtime: real)
    requires WINDOW - TOLERANCE < lag
    requires 0.0 <= mtime < TOLERANCE && WINDOW - lag <= mtime
    ensures IsRun(lag, LateWorlds(mtime), LateEvents()) && CopiesOnly(LateEvents())
    ensures !EverySyncFresh(LateWorlds(mtime), LateEvents())
  {
    LateStart(mtime);
    LateFirstSync(lag, mtime);
    LateChange(lag, mtime);
    LateSecondSync(lag, mtime);
    StaleLeaf(LateWorlds(mtime)[3], 0, 1);
    ThreeSteps(lag, LateWorlds(mtime), LateEvents());
    StaleAtEnd(LateWorlds(mtime), LateEvents());
  }

  // ---------------------------------------------------------------------------
  // Links are not backdated
  // ---------------------------------------------------------------------------

  /** A sync makes a link; the source file is replaced within the same clock tick; a sync with copies
      takes the old file, by now nobody else's, for a settled copy. */
  function MixedWorlds(): seq<World> {
    [ World(map[0 := Inode(OLD, 2.0)], OneFile(0), map[], map[], 2.0),
      World(map[0 := Inode(OLD, 2.0)], OneFile(0), map[], OneFile(0), 2.0),
      World(map[0 := Inode(OLD, 2.0), 1 := Inode(NEW, 2.0)], OneFile(1), map[], OneFile(0), 2.0),
      World(map[0 := Inode(OLD, 2.0), 1 := Inode(NEW, 2.0)], OneFile(1), map[], OneFile(0), 10.0) ]
  }

  function MixedEvents(): seq<Event> {
    [ Sync(false, Nothing, 2.0, Exactly), Change(2.0, {1}), Sync(true, Nothing, 10.0, Exactly) ]
  }

  lemma MixedSteps(lag: real)
    requires 0.0 <= lag
    ensures var ws, es := MixedWorlds(), MixedEvents();
            Initial(ws[0]) && Step(lag, ws[0], es[0], ws[1]) && Step(lag, ws[1], es[1], ws[2])
  {
    OneFileFacts(0);
    OneFileFacts(1);
    OneFileMirrors(0, 0);
  }

  lemma MixedLastStep(lag: real)
    ensures var ws, es := MixedWorlds(), MixedEvents(); Step(lag, ws[2], es[2], ws[3])
  {
    OneFileFacts(0);
    OneFileFacts(1);
    OneFileMirrors(1, 0);
    NoLinks();
  }

  /** A run that mixes links and copies can be stale, even if times never lag behind. */
  lemma MixedRunCanBeStale(lag: real)
    requires 0.0 <= lag
    ensures IsRun(lag, MixedWorlds(), MixedEvents())
    ensures !EverySyncFresh(MixedWorlds(), MixedEvents())
  {
    MixedSteps(lag);
    MixedLastStep(lag);
    StaleLeaf(MixedWorlds()[3], 1, 0);
    ThreeSteps(lag, MixedWorlds(), MixedEvents());
    StaleAtEnd(MixedWorlds(), MixedEvents());
  }

  /**
   Runs stay fresh whatever happens exactly when no sync makes links and file times lag behind the
   clock by at most 1.999 seconds, the race window less the comparison tolerance.
   */
  lemma FreshExactly(lag: real, links: bool)
    requires 0.0 <= lag
    ensures (forall worlds, events | IsRun(lag, worlds, events) && (links || CopiesOnly(events)) ::
               EverySyncFresh(worlds, events))
            <==> !links && lag <= 1.999
  {
    if links {
      MixedRunCanBeStale(lag);
    } else if lag <= WINDOW - TOLERANCE {
      forall worlds, events | IsRun(lag, worlds, events) && CopiesOnly(events) ensures EverySyncFresh(worlds, events) {
        CopyRunsStayFresh(lag, worlds, events);
      }
    } else {
      LateRun(lag, if lag < WINDOW then WINDOW - lag else 0.0);
    }
  }

  // ---------------------------------------------------------------------------
  // The mirror takes such steps
  // ---------------------------------------------------------------------------

  /** The mirror itself, run at time `now`, takes a sync step. */
  method RunSync(fs: FileSystem, excluded: string -> bool, hardLink: bool, sameDevice: bool, linkable: Path -> bool,
                 pipe: bool, now: real, round: real -> real, ghost clock: real)
    requires fs.Valid() && RoundsDown(round) && clock <= now
    modifies fs`inodes, fs`nextIno, fs`dst
    ensures fs.Valid()
    ensures SyncStep(World(old(fs.inodes), old(fs.src), old(fs.others), old(fs.dst), clock),
                     Sync(!hardLink, excluded, now, round),
                     World(fs.inodes, fs.src, fs.others, fs.dst, now))
  {
    MirrorWalk.SyncTree(fs, excluded, hardLink, sameDevice, linkable, pipe, now, round);
  }
}
