/** The walk of the tree mirror over the source folders, and the sync as a whole. */
module MirrorWalk {
  import opened TreeMirror

  /** What stays the same during one sync. */
  datatype Job = Job(src: Tree, others: Tree, excluded: string -> bool, copyOnly: bool, now: real, round: real -> real,
                     dst0: Tree, inodes0: map<nat, Inode>)

  ghost predicate Done(j: Job, p: Path, dst: Tree, inodes: map<nat, Inode>) {
    FileOwned(j.src, j.others, p, j.copyOnly, j.now, j.round, j.dst0, j.inodes0, dst, inodes)
  }

  /** A folder of the source that is mirrored. */
  ghost predicate MirroredDir(j: Job, d: Path) {
    Visible(j.src, j.excluded, d) && j.src[d] == Dir
  }

  ghost predicate MirroredFile(j: Job, p: Path) {
    Visible(j.src, j.excluded, p) && j.src[p].File?
  }

  function Files(j: Job, d: Path): set<string> { FilesIn(j.src, j.excluded, d) }
  function Dirs(j: Job, d: Path): set<string> { DirsIn(j.src, j.excluded, d) }

  /** Syncing folder `d` leaves `q` alone. */
  ghost predicate Leaves(j: Job, d: Path, q: Path) {
    q != d && !(d < q && q[|d|] !in Dirs(j, d))
  }

  /** The folders synced so far are as they have to be. */
  ghost predicate FolderDone(j: Job, d: Path, dst: Tree, inodes: map<nat, Inode>) {
    && d in dst && dst[d] == Dir
    && (forall q | q in dst && d < q :: q[|d|] in Files(j, d) + Dirs(j, d))
    && forall f | f in Files(j, d) :: Done(j, d + [f], dst, inodes)
  }

  /** A folder made by this sync holds its files and the folders made in it since. */
  ghost predicate OnlyMade(j: Job, d: Path, done: set<Path>, dst: Tree) {
    forall q | q in dst && d < q :: q[|d|] in Files(j, d) || d + [q[|d|]] in done
  }

  function SubFolders(j: Job, e: Path): (r: set<Path>) {
    set n | n in Dirs(j, e) :: e + [n]
  }

  /** Every folder except the root is below a done folder. */
  ghost predicate BelowDone(done: set<Path>, folders: set<Path>) {
    forall d | d in folders && d != [] :: d[..|d| - 1] in done
  }

  /** The subfolders of done folders are known. */
  ghost predicate SubFoldersKnown(j: Job, done: set<Path>, known: set<Path>) {
    forall d | d in done :: SubFolders(j, d) <= known
  }

  ghost predicate WalkOrder(j: Job, done: set<Path>, pending: set<Path>) {
    && [] in done + pending && done !! pending
    && (forall d | d in done + pending :: MirroredDir(j, d))
    && BelowDone(done, done + pending)
    && SubFoldersKnown(j, done, done + pending)
  }

  ghost predicate WalkState(j: Job, done: set<Path>, made: set<Path>, dst: Tree, inodes: map<nat, Inode>) {
    && (forall d | d in done :: FolderDone(j, d, dst, inodes))
    && made <= done
    && (forall d | d in made :: OnlyMade(j, d, done, dst))
    && (forall q | (forall d | d in done :: Leaves(j, d, q)) :: SameAt(dst, j.dst0, q))
    && InodesKept(j.inodes0, inodes)
    && (j.copyOnly ==> NoNewLinks(j.inodes0, j.dst0, dst))
  }

  // ---------------------------------------------------------------------------
  // Which paths a folder's sync leaves alone
  // ---------------------------------------------------------------------------

  lemma DirComponent(j: Job, a: Path, b: Path)
    requires WellFormed(j.src) && a < b && Visible(j.src, j.excluded, b)
    requires j.src[b] == Dir || |b| > |a| + 1
    ensures b[|a|] in Dirs(j, a) && MirroredDir(j, a + [b[|a|]]) && a + [b[|a|]] <= b
  {
    var c, n := b[..|a| + 1], b[|a|];
    assert c == a + [n] && n in b;
    if c != b { AboveIsDir(j.src, b, c); }
    PrefixKept(j.excluded, b, c);
    NamesIn(j.src, j.excluded, a, n);
  }

  lemma LeavesDirs(j: Job, d: Path, q: Path)
    requires WellFormed(j.src) && MirroredDir(j, q) && q != d
    ensures Leaves(j, d, q)
  {
    if d < q { DirComponent(j, d, q); }
  }

  lemma LeavesFiles(j: Job, d: Path, q: Path)
    requires WellFormed(j.src) && MirroredFile(j, q) && MirroredDir(j, d) && q != [] && q[..|q| - 1] != d
    ensures Leaves(j, d, q)
  {
    if d < q {
      assert q[..|d|] == d && |q| != |d| + 1;
      DirComponent(j, d, q);
    }
  }

  lemma FileOf(j: Job, d: Path, f: string)
    requires MirroredDir(j, d) && f in Files(j, d)
    ensures MirroredFile(j, d + [f]) && (d + [f])[..|d + [f]| - 1] == d
  {
    NamesIn(j.src, j.excluded, d, f);
  }

  /** Paths below a done folder that a later folder's sync changes start with a mirrored folder. */
  lemma ChangedBelow(j: Job, d: Path, e: Path, q: Path)
    requires WellFormed(j.src) && MirroredDir(j, d) && MirroredDir(j, e) && d != e
    requires d < q && !Leaves(j, e, q)
    ensures d < e && q[|d|] == e[|d|] && q[|d|] in Dirs(j, d) && d + [q[|d|]] <= e
  {
    assert d == q[..|d|] && e == q[..|e|];
    if |e| < |d| {
      assert e == d[..|e|];
      DirComponent(j, e, d);
    }
    assert d == e[..|d|];
    DirComponent(j, d, e);
  }

  // ---------------------------------------------------------------------------
  // One more folder
  // ---------------------------------------------------------------------------

  /** What syncing folder `e` does, seen from outside. */
  ghost predicate FolderStep(j: Job, e: Path, isNew: bool, dst: Tree, inodes: map<nat, Inode>, dst': Tree,
                             inodes': map<nat, Inode>) {
    && e in dst' && dst'[e] == Dir
    && InodesKept(inodes, inodes')
    && (forall q | Leaves(j, e, q) :: SameAt(dst', dst, q))
    && (forall q | q in dst' && e < q :: q[|e|] in Files(j, e) + Dirs(j, e))
    && (isNew ==> forall q | q in dst' && e < q :: q[|e|] in Files(j, e))
    && (forall f | f in Files(j, e) ::
          FileOwned(j.src, j.others, e + [f], j.copyOnly, j.now, j.round, dst, inodes, dst', inodes'))
    && (j.copyOnly ==> NoNewLinks(inodes, dst, dst'))
  }

  /** A folder done before stays done. */
  lemma FolderStaysDone(j: Job, d: Path, e: Path, isNew: bool, dst: Tree, inodes: map<nat, Inode>, dst': Tree,
                        inodes': map<nat, Inode>)
    requires WellFormed(j.src) && MirroredDir(j, d) && MirroredDir(j, e) && d != e
    requires FolderDone(j, d, dst, inodes) && FolderStep(j, e, isNew, dst, inodes, dst', inodes')
    ensures FolderDone(j, d, dst', inodes')
  {
    LeavesDirs(j, e, d);
    assert SameAt(dst', dst, d);
    forall q | q in dst' && d < q ensures q[|d|] in Files(j, d) + Dirs(j, d) {
      if Leaves(j, e, q) { assert SameAt(dst', dst, q); } else { ChangedBelow(j, d, e, q); }
    }
    forall f | f in Files(j, d) ensures Done(j, d + [f], dst', inodes') {
      FileOf(j, d, f);
      LeavesFiles(j, e, d + [f]);
      assert SameAt(dst', dst, d + [f]);
      FileOwnedPersists(j.src, j.others, d + [f], j.copyOnly, j.now, j.round,
                        j.dst0, j.inodes0, dst, inodes, dst', inodes');
    }
  }

  /** The folder just synced is done with respect to the start of the sync. */
  lemma FolderBecomesDone(j: Job, e: Path, isNew: bool, done: set<Path>, made: set<Path>,
                          dst: Tree, inodes: map<nat, Inode>, dst': Tree, inodes': map<nat, Inode>)
    requires WellFormed(j.src) && MirroredDir(j, e) && e !in done
    requires forall d | d in done :: MirroredDir(j, d)
    requires WalkState(j, done, made, dst, inodes) && FolderStep(j, e, isNew, dst, inodes, dst', inodes')
    ensures FolderDone(j, e, dst', inodes')
  {
    forall f | f in Files(j, e) ensures Done(j, e + [f], dst', inodes') {
      FileOf(j, e, f);
      forall d | d in done ensures Leaves(j, d, e + [f]) { LeavesFiles(j, d, e + [f]); }
      assert SameAt(dst, j.dst0, e + [f]);
      FileOwnedSince(j.src, j.others, e + [f], j.copyOnly, j.now, j.round,
                     j.dst0, j.inodes0, dst, inodes, dst', inodes');
    }
  }

  /** Folders above a waiting folder are done. */
  lemma {:induction false} AboveDone(j: Job, done: set<Path>, pending: set<Path>, e: Path, a: Path)
    requires WalkOrder(j, done, pending) && e in done + pending && a < e
    ensures a in done
    decreases |e|
  {
    var up := e[..|e| - 1];
    assert up in done;
    if a != up { AboveDone(j, done, pending, up, a); }
  }

  lemma StaysOnlyMade(j: Job, d: Path, e: Path, isNew: bool, done: set<Path>, pending: set<Path>,
                      dst: Tree, inodes: map<nat, Inode>, dst': Tree, inodes': map<nat, Inode>)
    requires WellFormed(j.src) && WalkOrder(j, done, pending) && d in done && e in pending
    requires OnlyMade(j, d, done, dst) && FolderStep(j, e, isNew, dst, inodes, dst', inodes')
    ensures OnlyMade(j, d, done + {e}, dst')
  {
    forall q | q in dst' && d < q ensures q[|d|] in Files(j, d) || d + [q[|d|]] in done + {e} {
      if Leaves(j, e, q) {
        assert SameAt(dst', dst, q);
      } else {
        ChangedBelow(j, d, e, q);
        if d + [q[|d|]] != e { AboveDone(j, done, pending, e, d + [q[|d|]]); }
      }
    }
  }

  lemma SubFolderFacts(j: Job, e: Path, c: Path)
    requires MirroredDir(j, e)
    ensures c in SubFolders(j, e) <==> MirroredDir(j, c) && c != [] && c[..|c| - 1] == e
  {
    if c in SubFolders(j, e) {
      var n :| n in Dirs(j, e) && c == e + [n];
      NamesIn(j.src, j.excluded, e, n);
    }
    if MirroredDir(j, c) && c != [] && c[..|c| - 1] == e {
      assert c == e + [c[|c| - 1]] && c[|c| - 1] in c;
      NamesIn(j.src, j.excluded, e, c[|c| - 1]);
    }
  }

  /** The subfolders of a waiting folder are new to the walk. */
  lemma NewFolders(j: Job, done: set<Path>, pending: set<Path>, e: Path, c: Path)
    requires WalkOrder(j, done, pending) && e in pending && c in SubFolders(j, e)
    ensures MirroredDir(j, c) && c != [] && c[..|c| - 1] == e && c !in done && c != e
  {
    SubFolderFacts(j, e, c);
  }

  lemma Regrouped(done: set<Path>, pending: set<Path>, e: Path, sub: set<Path>)
    requires e in pending && done !! pending && forall c | c in sub :: c !in done && c != e
    ensures (done + {e}) + (pending - {e} + sub) == done + pending + sub
    ensures (done + {e}) !! (pending - {e} + sub)
  {
  }

  lemma StillBelowDone(done: set<Path>, known: set<Path>, e: Path, sub: set<Path>)
    requires BelowDone(done, known) && forall c | c in sub :: c != [] && c[..|c| - 1] == e
    ensures BelowDone(done + {e}, known + sub)
  {
  }

  lemma StillKnown(j: Job, done: set<Path>, known: set<Path>, e: Path)
    requires SubFoldersKnown(j, done, known)
    ensures SubFoldersKnown(j, done + {e}, known + SubFolders(j, e))
  {
  }

  /** The walk goes on: one more folder done, its subfolders waiting. */
  lemma OrderStep(j: Job, done: set<Path>, pending: set<Path>, e: Path)
    requires WalkOrder(j, done, pending) && e in pending
    ensures WalkOrder(j, done + {e}, pending - {e} + SubFolders(j, e))
  {
    var sub := SubFolders(j, e);
    forall c | c in sub ensures MirroredDir(j, c) && c != [] && c[..|c| - 1] == e && c !in done && c != e {
      NewFolders(j, done, pending, e, c);
    }
    Regrouped(done, pending, e, sub);
    StillBelowDone(done, done + pending, e, sub);
    StillKnown(j, done, done + pending, e);
  }

  /** What no done folder covers is as it was at the start. */
  lemma RestAlone(j: Job, done: set<Path>, e: Path, dst: Tree, dst': Tree, q: Path)
    requires forall q | (forall d | d in done :: Leaves(j, d, q)) :: SameAt(dst, j.dst0, q)
    requires forall q | Leaves(j, e, q) :: SameAt(dst', dst, q)
    requires forall d | d in done + {e} :: Leaves(j, d, q)
    ensures SameAt(dst', j.dst0, q)
  {
    assert e in done + {e};
    assert Leaves(j, e, q);
    forall d | d in done ensures Leaves(j, d, q) { assert d in done + {e}; }
    assert SameAt(dst', dst, q) && SameAt(dst, j.dst0, q);
  }

  lemma LinksKept(j: Job, dst: Tree, inodes: map<nat, Inode>, dst': Tree, inodes': map<nat, Inode>)
    requires InodesKept(j.inodes0, inodes) && InodesKept(inodes, inodes')
    requires j.copyOnly ==> NoNewLinks(j.inodes0, j.dst0, dst) && NoNewLinks(inodes, dst, dst')
    ensures InodesKept(j.inodes0, inodes') && (j.copyOnly ==> NoNewLinks(j.inodes0, j.dst0, dst'))
  {
  }

  lemma DoneStep(j: Job, done: set<Path>, pending: set<Path>, made: set<Path>, e: Path, isNew: bool,
                  dst: Tree, inodes: map<nat, Inode>, dst': Tree, inodes': map<nat, Inode>)
    requires WellFormed(j.src) && WalkOrder(j, done, pending) && e in pending
    requires WalkState(j, done, made, dst, inodes) && FolderStep(j, e, isNew, dst, inodes, dst', inodes')
    ensures forall d | d in done + {e} :: FolderDone(j, d, dst', inodes')
  {
    FolderBecomesDone(j, e, isNew, done, made, dst, inodes, dst', inodes');
    forall d | d in done ensures FolderDone(j, d, dst', inodes') {
      FolderStaysDone(j, d, e, isNew, dst, inodes, dst', inodes');
    }
  }

  lemma MadeStep(j: Job, done: set<Path>, pending: set<Path>, made: set<Path>, e: Path, isNew: bool,
                  dst: Tree, inodes: map<nat, Inode>, dst': Tree, inodes': map<nat, Inode>)
    requires WellFormed(j.src) && WalkOrder(j, done, pending) && e in pending
    requires WalkState(j, done, made, dst, inodes) && FolderStep(j, e, isNew, dst, inodes, dst', inodes')
    ensures forall d | d in made :: OnlyMade(j, d, done + {e}, dst')
    ensures isNew ==> OnlyMade(j, e, done + {e}, dst')
  {
    forall d | d in made ensures OnlyMade(j, d, done + {e}, dst') {
      assert d in done;
      StaysOnlyMade(j, d, e, isNew, done, pending, dst, inodes, dst', inodes');
    }
  }

  lemma RestStep(j: Job, done: set<Path>, pending: set<Path>, made: set<Path>, e: Path, isNew: bool,
                  dst: Tree, inodes: map<nat, Inode>, dst': Tree, inodes': map<nat, Inode>)
    requires WellFormed(j.src) && WalkOrder(j, done, pending) && e in pending
    requires WalkState(j, done, made, dst, inodes) && FolderStep(j, e, isNew, dst, inodes, dst', inodes')
    ensures forall q | (forall d | d in done + {e} :: Leaves(j, d, q)) :: SameAt(dst', j.dst0, q)
  {
    forall q | (forall d | d in done + {e} :: Leaves(j, d, q)) ensures SameAt(dst', j.dst0, q) {
      RestAlone(j, done, e, dst, dst', q);
    }
  }

  lemma StateStep(j: Job, done: set<Path>, pending: set<Path>, made: set<Path>, e: Path, isNew: bool,
                  dst: Tree, inodes: map<nat, Inode>, dst': Tree, inodes': map<nat, Inode>)
    requires WellFormed(j.src) && WalkOrder(j, done, pending) && e in pending
    requires WalkState(j, done, made, dst, inodes) && FolderStep(j, e, isNew, dst, inodes, dst', inodes')
    ensures WalkState(j, done + {e}, if isNew then made + {e} else made, dst', inodes')
  {
    DoneStep(j, done, pending, made, e, isNew, dst, inodes, dst', inodes');
    MadeStep(j, done, pending, made, e, isNew, dst, inodes, dst', inodes');
    RestStep(j, done, pending, made, e, isNew, dst, inodes, dst', inodes');
    LinksKept(j, dst, inodes, dst', inodes');
  }

  // ---------------------------------------------------------------------------
  // The walk is over
  // ---------------------------------------------------------------------------

  lemma {:induction false} AllFoldersDone(j: Job, done: set<Path>, d: Path)
    requires WellFormed(j.src) && WalkOrder(j, done, {}) && MirroredDir(j, d)
    ensures d in done
    decreases |d|
  {
    if d != [] {
      var up := d[..|d| - 1];
      AboveIsDir(j.src, d, up);
      PrefixKept(j.excluded, d, up);
      AllFoldersDone(j, done, up);
      SubFolderFacts(j, up, d);
    }
  }

  ghost predicate AllDone(j: Job, dst: Tree, inodes: map<nat, Inode>) {
    forall d | MirroredDir(j, d) :: FolderDone(j, d, dst, inodes)
  }

  /** A mirrored file is a file of its folder. */
  lemma FileInFolder(j: Job, p: Path) returns (d: Path, f: string)
    requires WellFormed(j.src) && MirroredFile(j, p) && p != []
    ensures p == d + [f] && MirroredDir(j, d) && f in Files(j, d)
  {
    d, f := p[..|p| - 1], p[|p| - 1];
    AboveIsDir(j.src, p, d);
    PrefixKept(j.excluded, p, d);
    assert p == d + [f] && f in p;
    NamesIn(j.src, j.excluded, d, f);
  }

  lemma FileIsDone(j: Job, dst: Tree, inodes: map<nat, Inode>, p: Path)
    requires WellFormed(j.src) && [] in j.src && j.src[[]] == Dir && AllDone(j, dst, inodes) && MirroredFile(j, p)
    ensures Done(j, p, dst, inodes)
  {
    var d, f := FileInFolder(j, p);
    assert FolderDone(j, d, dst, inodes);
  }

  lemma NothingMissing(j: Job, dst: Tree, inodes: map<nat, Inode>, p: Path)
    requires WellFormed(j.src) && [] in j.src && j.src[[]] == Dir && AllDone(j, dst, inodes)
    requires Visible(j.src, j.excluded, p)
    ensures p in dst && (dst[p].Dir? <==> j.src[p].Dir?)
  {
    if j.src[p].Dir? {
      assert FolderDone(j, p, dst, inodes);
    } else {
      FileIsDone(j, dst, inodes, p);
    }
  }

  lemma NameIsMirrored(j: Job, d: Path, n: string)
    requires MirroredDir(j, d) && n in Files(j, d) + Dirs(j, d)
    ensures Visible(j.src, j.excluded, d + [n])
  {
    NamesIn(j.src, j.excluded, d, n);
  }

  lemma ChildIsMirrored(j: Job, dst: Tree, inodes: map<nat, Inode>, d: Path, n: string)
    requires MirroredDir(j, d) && AllDone(j, dst, inodes) && d + [n] in dst
    ensures Visible(j.src, j.excluded, d + [n])
  {
    assert FolderDone(j, d, dst, inodes);
    assert d < d + [n] && (d + [n])[|d|] == n;
    NameIsMirrored(j, d, n);
  }

  /** Whatever is in the destination is mirrored. */
  lemma {:induction false} NothingElse(j: Job, dst: Tree, inodes: map<nat, Inode>, p: Path)
    requires WellFormed(j.src) && [] in j.src && j.src[[]] == Dir && AllDone(j, dst, inodes)
    requires WellFormed(dst) && p in dst
    ensures Visible(j.src, j.excluded, p)
    decreases |p|
  {
    if p != [] {
      var up, n := p[..|p| - 1], p[|p| - 1];
      assert p == up + [n];
      NothingElse(j, dst, inodes, up);
      NothingMissing(j, dst, inodes, up);
      ChildIsMirrored(j, dst, inodes, up, n);
    }
  }

  lemma WalkFinished(j: Job, done: set<Path>, made: set<Path>, dst: Tree, inodes: map<nat, Inode>)
    requires WellFormed(j.src) && [] in j.src && j.src[[]] == Dir && WellFormed(dst)
    requires WalkOrder(j, done, {}) && WalkState(j, done, made, dst, inodes)
    ensures Mirrors(j.src, j.excluded, dst)
    ensures forall p | p in dst && dst[p].File? :: Done(j, p, dst, inodes)
  {
    forall d | MirroredDir(j, d) ensures FolderDone(j, d, dst, inodes) { AllFoldersDone(j, done, d); }
    AllDoneMirrors(j, dst, inodes);
  }

  lemma AllDoneMirrors(j: Job, dst: Tree, inodes: map<nat, Inode>)
    requires WellFormed(j.src) && [] in j.src && j.src[[]] == Dir && WellFormed(dst) && AllDone(j, dst, inodes)
    ensures Mirrors(j.src, j.excluded, dst)
    ensures forall p | p in dst && dst[p].File? :: Done(j, p, dst, inodes)
  {
    forall p ensures p in dst ==> Visible(j.src, j.excluded, p) {
      if p in dst { NothingElse(j, dst, inodes, p); }
    }
    forall p ensures Visible(j.src, j.excluded, p) ==> p in dst && (dst[p].Dir? <==> j.src[p].Dir?) {
      if Visible(j.src, j.excluded, p) { NothingMissing(j, dst, inodes, p); }
    }
    forall p | p in dst && dst[p].File? ensures Done(j, p, dst, inodes) { FileIsDone(j, dst, inodes, p); }
  }

  // ---------------------------------------------------------------------------
  // The sync
  // ---------------------------------------------------------------------------

  lemma NoRootNoTree(t: Tree)
    requires WellFormed(t) && [] !in t
    ensures t == map[]
  {
    forall p | p in t ensures false {
      if p != [] { AboveIsDir(t, p, []); }
    }
  }

  /** A waiting folder in a folder that this sync made does not exist yet, so it can be made, too. */
  lemma NotThereYet(j: Job, done: set<Path>, dst: Tree, e: Path)
    requires MirroredDir(j, e) && e !in done && e != [] && OnlyMade(j, e[..|e| - 1], done, dst)
    ensures e !in dst
  {
    var d := e[..|e| - 1];
    assert d < e && e == d + [e[|d|]];
    NamesIn(j.src, j.excluded, d, e[|d|]);
  }

  /** The files of the folders are links to their sources. */
  ghost predicate FoldersLinked(j: Job, folders: set<Path>, dst: Tree) {
    forall d | d in folders :: Linked(j.src, d, Files(j, d), dst)
  }

  ghost predicate EveryLinkable(j: Job, linkable: Path -> bool) {
    forall p | MirroredFile(j, p) :: linkable(p)
  }

  lemma FolderLinkable(j: Job, linkable: Path -> bool, d: Path)
    requires EveryLinkable(j, linkable) && MirroredDir(j, d)
    ensures AllLinkable(linkable, d, Files(j, d))
  {
    forall f | f in Files(j, d) ensures linkable(d + [f]) { FileOf(j, d, f); }
  }

  lemma LinkedStep(j: Job, done: set<Path>, pending: set<Path>, e: Path, isNew: bool,
                   dst: Tree, inodes: map<nat, Inode>, dst': Tree, inodes': map<nat, Inode>)
    requires WellFormed(j.src) && WalkOrder(j, done, pending) && e in pending && FoldersLinked(j, done, dst)
    requires FolderStep(j, e, isNew, dst, inodes, dst', inodes') && Linked(j.src, e, Files(j, e), dst')
    ensures FoldersLinked(j, done + {e}, dst')
  {
    forall d, f | d in done && f in Files(j, d) ensures IsLink(j.src, d + [f], dst') {
      FileOf(j, d, f);
      LeavesFiles(j, e, d + [f]);
      assert Linked(j.src, d, Files(j, d), dst) && SameAt(dst', dst, d + [f]);
    }
  }

  lemma AllLinked(j: Job, done: set<Path>, dst: Tree, p: Path)
    requires WellFormed(j.src) && [] in j.src && j.src[[]] == Dir
    requires WalkOrder(j, done, {}) && FoldersLinked(j, done, dst)
    requires MirroredFile(j, p)
    ensures IsLink(j.src, p, dst)
  {
    var d, f := FileInFolder(j, p);
    AllFoldersDone(j, done, d);
    assert Linked(j.src, d, Files(j, d), dst);
  }

  /** The folder-by-folder pass over an existing destination, or one to be filled with links. */
  method Walk(fs: FileSystem, excluded: string -> bool, copyOnly: bool, hardLink: bool, linkable: Path -> bool,
              now: real, round: real -> real)
    requires fs.Valid() && (copyOnly ==> !hardLink)
    modifies fs`inodes, fs`nextIno, fs`dst
    ensures fs.Valid() && Mirrors(fs.src, excluded, fs.dst) && InodesKept(old(fs.inodes), fs.inodes)
    ensures forall p | p in fs.dst && fs.dst[p].File? ::
              FileOwned(fs.src, fs.others, p, copyOnly, now, round, old(fs.dst), old(fs.inodes), fs.dst, fs.inodes)
    ensures hardLink && (forall p | Visible(fs.src, excluded, p) && fs.src[p].File? :: linkable(p)) ==>
              forall p | p in fs.dst && fs.dst[p].File? :: IsLink(fs.src, p, fs.dst)
  {
    ghost var j := Job(fs.src, fs.others, excluded, copyOnly, now, round, fs.dst, fs.inodes);
    var hard := hardLink;
    var done: set<Path>, pending: set<Path>, made: set<Path> := {}, {[]}, {};
    while pending != {}
      invariant fs.Valid() && (hard ==> hardLink && FoldersLinked(j, done, fs.dst))
      invariant hardLink && EveryLinkable(j, linkable) ==> hard
      invariant WalkOrder(j, done, pending) && WalkState(j, done, made, fs.dst, fs.inodes)
      decreases fs.src.Keys - done
    {
      var d :| d in pending;
      var parentIsNew := d != [] && d[..|d| - 1] in made;
      if parentIsNew { NotThereYet(j, done, fs.dst, d); }
      assert d != [] ==> FolderDone(j, d[..|d| - 1], fs.dst, fs.inodes);
      ghost var dst1, inodes1 := fs.dst, fs.inodes;
      var isNew;
      if EveryLinkable(j, linkable) { FolderLinkable(j, linkable, d); }
      hard, isNew := StepFolder(fs, j, d, excluded, parentIsNew, copyOnly, hard, linkable, now, round);
      if hard { LinkedStep(j, done, pending, d, isNew, dst1, inodes1, fs.dst, fs.inodes); }
      StateStep(j, done, pending, made, d, isNew, dst1, inodes1, fs.dst, fs.inodes);
      OrderStep(j, done, pending, d);
      pending := pending - {d} + (set n | n in DirsIn(fs.src, excluded, d) :: d + [n]);
      done := done + {d};
      if isNew { made := made + {d}; }
    }
    WalkFinished(j, done, made, fs.dst, fs.inodes);
    if hard {
      forall p | p in fs.dst && fs.dst[p].File? ensures IsLink(fs.src, p, fs.dst) { AllLinked(j, done, fs.dst, p); }
    }
  }

  lemma FolderNames(src: Tree, excluded: string -> bool, d: Path)
    ensures forall n | n in FilesIn(src, excluded, d) :: d + [n] in src && src[d + [n]].File?
    ensures FilesIn(src, excluded, d) !! DirsIn(src, excluded, d)
  {
    forall n | n in FilesIn(src, excluded, d)
      ensures d + [n] in src && src[d + [n]].File? && n !in DirsIn(src, excluded, d)
    {
      NamesIn(src, excluded, d, n);
    }
  }

  method StepFolder(fs: FileSystem, ghost j: Job, d: Path, excluded: string -> bool, parentIsNew: bool, copyOnly: bool,
                    hardLink: bool, linkable: Path -> bool, now: real, round: real -> real)
    returns (hard: bool, isNew: bool)
    requires fs.Valid() && (copyOnly ==> !hardLink)
    requires j.src == fs.src && j.others == fs.others && j.excluded == excluded && j.copyOnly == copyOnly
             && j.now == now && j.round == round
    requires d != [] ==> d[..|d| - 1] in fs.dst && fs.dst[d[..|d| - 1]] == Dir
    requires parentIsNew ==> d !in fs.dst
    modifies fs`inodes, fs`nextIno, fs`dst
    ensures fs.Valid() && (hard ==> hardLink && Linked(fs.src, d, Files(j, d), fs.dst))
    ensures hardLink && AllLinkable(linkable, d, Files(j, d)) ==> hard
    ensures FolderStep(j, d, isNew, old(fs.dst), old(fs.inodes), fs.dst, fs.inodes)
  {
    var files, dirs := FilesIn(fs.src, excluded, d), DirsIn(fs.src, excluded, d);
    FolderNames(fs.src, excluded, d);
    hard, isNew := fs.SyncFolder(d, files, dirs, parentIsNew, copyOnly, hardLink, linkable, now, round);
  }

  // ---------------------------------------------------------------------------
  // Filling a missing destination with copies
  // ---------------------------------------------------------------------------

  function VisiblePaths(src: Tree, excluded: string -> bool): set<Path> {
    set p | p in src && Kept(excluded, p)
  }

  /**
   The paths copied so far are there, each file in a new inode. The archive pipe keeps links: its
   copies share an inode exactly where their sources do. Copying file by file gives each its own.
   */
  ghost predicate CopiedPaths(src: Tree, pipe: bool, paths: set<Path>, dst: Tree, inodes: map<nat, Inode>,
                              inodes0: map<nat, Inode>) {
    && dst.Keys == paths && paths <= src.Keys
    && InodesKept(inodes0, inodes)
    && (forall p | p in dst :: dst[p].Dir? <==> src[p].Dir?)
    && (forall p | p in dst && dst[p].File? :: dst[p].ino in inodes && dst[p].ino !in inodes0)
    && CopiesShare(src, pipe, dst)
  }

  ghost predicate CopiesShare(src: Tree, pipe: bool, dst: Tree) {
    forall p, q | p in dst && q in dst && dst[p].File? && dst[q].File? ::
      p in src && q in src && (dst[p] == dst[q] <==> p == q || (pipe && src[p] == src[q]))
  }

  /** The file at `p` carries the source's contents and the given time. */
  ghost predicate Carries(src: Tree, p: Path, dst: Tree, inodes: map<nat, Inode>, inodes0: map<nat, Inode>,
                          mtime: real) {
    && p in dst && p in src && dst[p].File? && src[p].File? && src[p].ino in inodes0 && dst[p].ino in inodes
    && inodes[dst[p].ino] == Inode(inodes0[src[p].ino].content, mtime)
  }

  /** The copied file carries the time of its source, as the destination stores it. */
  ghost predicate CarriesTime(src: Tree, p: Path, dst: Tree, inodes: map<nat, Inode>, inodes0: map<nat, Inode>,
                              round: real -> real) {
    p in src && src[p].File? && src[p].ino in inodes0 &&
    Carries(src, p, dst, inodes, inodes0, round(inodes0[src[p].ino].mtime))
  }

  ghost predicate AllCarry(src: Tree, dst: Tree, inodes: map<nat, Inode>, inodes0: map<nat, Inode>,
                           round: real -> real) {
    forall p | p in dst && dst[p].File? :: CarriesTime(src, p, dst, inodes, inodes0, round)
  }

  lemma CopyOneDir(src: Tree, pipe: bool, done: set<Path>, dst: Tree, inodes: map<nat, Inode>, inodes0: map<nat, Inode>,
                   round: real -> real, p: Path)
    requires CopiedPaths(src, pipe, done, dst, inodes, inodes0) && AllCarry(src, dst, inodes, inodes0, round)
    requires p in src && src[p] == Dir && p !in done
    ensures CopiedPaths(src, pipe, done + {p}, dst[p := Dir], inodes, inodes0)
    ensures AllCarry(src, dst[p := Dir], inodes, inodes0, round)
  {
    var dst' := dst[p := Dir];
    forall q | q in dst' && dst'[q].File? ensures CarriesTime(src, q, dst', inodes, inodes0, round) {
      assert CarriesTime(src, q, dst, inodes, inodes0, round);
    }
  }

  lemma CopyOneFile(src: Tree, pipe: bool, done: set<Path>, dst: Tree, inodes: map<nat, Inode>,
                    inodes0: map<nat, Inode>, round: real -> real, p: Path, i: nat)
    requires Known(src, inodes0) && CopiedPaths(src, pipe, done, dst, inodes, inodes0)
    requires AllCarry(src, dst, inodes, inodes0, round)
    requires p in src && src[p].File? && p !in done && i !in inodes
    requires pipe ==> forall q | q in dst :: src[q] != src[p]
    ensures src[p].ino in inodes && inodes[src[p].ino] == inodes0[src[p].ino]
    ensures var copy := Inode(inodes0[src[p].ino].content, round(inodes0[src[p].ino].mtime));
            && CopiedPaths(src, pipe, done + {p}, dst[p := File(i)], inodes[i := copy], inodes0)
            && AllCarry(src, dst[p := File(i)], inodes[i := copy], inodes0, round)
  {
    var copy := Inode(inodes0[src[p].ino].content, round(inodes0[src[p].ino].mtime));
    var dst', inodes' := dst[p := File(i)], inodes[i := copy];
    forall q | q in dst' && dst'[q].File? ensures CarriesTime(src, q, dst', inodes', inodes0, round) {
      if q != p { assert CarriesTime(src, q, dst, inodes, inodes0, round); }
    }
  }

  /** A file whose source was already copied under another name becomes a link to that copy. */
  lemma CopyOneLink(src: Tree, done: set<Path>, dst: Tree, inodes: map<nat, Inode>, inodes0: map<nat, Inode>,
                    round: real -> real, p: Path, q: Path)
    requires CopiedPaths(src, true, done, dst, inodes, inodes0) && AllCarry(src, dst, inodes, inodes0, round)
    requires p in src && src[p].File? && p !in done && q in dst && src[q] == src[p]
    ensures CopiedPaths(src, true, done + {p}, dst[p := dst[q]], inodes, inodes0)
    ensures AllCarry(src, dst[p := dst[q]], inodes, inodes0, round)
  {
    var dst' := dst[p := dst[q]];
    assert CarriesTime(src, q, dst, inodes, inodes0, round);
    forall r | r in dst' && dst'[r].File? ensures CarriesTime(src, r, dst', inodes, inodes0, round) {
      if r != p { assert CarriesTime(src, r, dst, inodes, inodes0, round); }
    }
  }

  /** Copy everything, times included; the copies are backdated afterwards. */
  method CopyTree(fs: FileSystem, excluded: string -> bool, pipe: bool, round: real -> real)
    requires fs.Valid() && fs.dst == map[]
    modifies fs`inodes, fs`nextIno, fs`dst
    ensures CopiedPaths(fs.src, pipe, VisiblePaths(fs.src, excluded), fs.dst, fs.inodes, old(fs.inodes))
    ensures AllCarry(fs.src, fs.dst, fs.inodes, old(fs.inodes), round)
    ensures forall i | i in fs.inodes :: i < fs.nextIno
  {
    var todo, done: set<Path> := VisiblePaths(fs.src, excluded), {};
    while todo != {}
      invariant todo + done == VisiblePaths(fs.src, excluded) && todo !! done
      invariant CopiedPaths(fs.src, pipe, done, fs.dst, fs.inodes, old(fs.inodes))
      invariant AllCarry(fs.src, fs.dst, fs.inodes, old(fs.inodes), round)
      invariant forall i | i in fs.inodes :: i < fs.nextIno
      decreases todo
    {
      var p :| p in todo;
      match fs.src[p] {
        case Dir =>
          CopyOneDir(fs.src, pipe, done, fs.dst, fs.inodes, old(fs.inodes), round, p);
          fs.dst := fs.dst[p := Dir];
        case File(i) =>
          CopyEntry(fs, pipe, round, p, done, old(fs.inodes));
      }
      todo, done := todo - {p}, done + {p};
    }
  }

  /** One file of the copied tree. */
  method CopyEntry(fs: FileSystem, pipe: bool, round: real -> real, p: Path, ghost done: set<Path>,
                   ghost inodes0: map<nat, Inode>)
    requires Known(fs.src, inodes0) && CopiedPaths(fs.src, pipe, done, fs.dst, fs.inodes, inodes0)
    requires AllCarry(fs.src, fs.dst, fs.inodes, inodes0, round)
    requires p in fs.src && fs.src[p].File? && p !in done && forall i | i in fs.inodes :: i < fs.nextIno
    modifies fs`inodes, fs`nextIno, fs`dst
    ensures CopiedPaths(fs.src, pipe, done + {p}, fs.dst, fs.inodes, inodes0)
    ensures AllCarry(fs.src, fs.dst, fs.inodes, inodes0, round)
    ensures forall i | i in fs.inodes :: i < fs.nextIno
  {
    var copied := set q | q in fs.dst && q in fs.src && fs.src[q] == fs.src[p];
    if pipe && copied != {} {
      var q :| q in copied;
      CopyOneLink(fs.src, done, fs.dst, fs.inodes, inodes0, round, p, q);
      fs.dst := fs.dst[p := fs.dst[q]];
    } else {
      forall q | pipe && q in fs.dst ensures fs.src[q] != fs.src[p] { assert q !in copied; }
      CopyOneFile(fs.src, pipe, done, fs.dst, fs.inodes, inodes0, round, p, fs.nextIno);
      var source := fs.inodes[fs.src[p].ino];
      fs.inodes := fs.inodes[fs.nextIno := Inode(source.content, round(source.mtime))];
      fs.dst := fs.dst[p := File(fs.nextIno)];
      fs.nextIno := fs.nextIno + 1;
    }
  }

  /** The copy carries its final time, or still the one it was copied with. */
  ghost predicate Stamped(src: Tree, p: Path, dst: Tree, inodes: map<nat, Inode>, inodes0: map<nat, Inode>,
                          now: real, round: real -> real) {
    p in src && src[p].File? && src[p].ino in inodes0 &&
    Carries(src, p, dst, inodes, inodes0, Stamp(round, now, inodes0[src[p].ino].mtime))
  }

  /** The copies in `done` have been backdated, those in `todo` perhaps through another name. */
  ghost predicate Demoted(src: Tree, todo: set<Path>, done: set<Path>, dst: Tree, inodes: map<nat, Inode>,
                          inodes0: map<nat, Inode>, now: real, round: real -> real) {
    && (forall p | p in todo ::
          CarriesTime(src, p, dst, inodes, inodes0, round) || Stamped(src, p, dst, inodes, inodes0, now, round))
    && forall p | p in done :: Stamped(src, p, dst, inodes, inodes0, now, round)
  }

  /** Backdating one copy gives every copy that shares its inode its final time, and changes nothing else. */
  lemma OneDemoted(src: Tree, pipe: bool, todo: set<Path>, done: set<Path>, dst: Tree, inodes: map<nat, Inode>,
                   inodes': map<nat, Inode>, inodes0: map<nat, Inode>, now: real, round: real -> real, p: Path)
    requires CopiedPaths(src, pipe, dst.Keys, dst, inodes, inodes0) && p in dst && dst[p].File?
    requires Demoted(src, todo, done, dst, inodes, inodes0, now, round) && p in todo
    requires Stamped(src, p, dst, inodes', inodes0, now, round)
    requires inodes'.Keys == inodes.Keys && forall i | i in inodes && i != dst[p].ino :: inodes'[i] == inodes[i]
    ensures CopiedPaths(src, pipe, dst.Keys, dst, inodes', inodes0)
    ensures Demoted(src, todo - {p}, done + {p}, dst, inodes', inodes0, now, round)
  {
    forall q | q in todo + done
      ensures Stamped(src, q, dst, inodes, inodes0, now, round) ==> Stamped(src, q, dst, inodes', inodes0, now, round)
      ensures CarriesTime(src, q, dst, inodes, inodes0, round) ==>
                CarriesTime(src, q, dst, inodes', inodes0, round) || Stamped(src, q, dst, inodes', inodes0, now, round)
    {
      if q in dst && dst[q] == dst[p] { assert src[q] == src[p]; }
    }
  }

  function FilePaths(t: Tree): set<Path> { set p | p in t && t[p].File? }

  /** Backdate the copies whose sources were just written. */
  method DemoteRacyMtimes(fs: FileSystem, now: real, round: real -> real, ghost pipe: bool,
                          ghost inodes0: map<nat, Inode>)
    requires CopiedPaths(fs.src, pipe, fs.dst.Keys, fs.dst, fs.inodes, inodes0)
    requires AllCarry(fs.src, fs.dst, fs.inodes, inodes0, round)
    modifies fs`inodes
    ensures CopiedPaths(fs.src, pipe, fs.dst.Keys, fs.dst, fs.inodes, inodes0)
    ensures forall p | p in fs.dst && fs.dst[p].File? :: Stamped(fs.src, p, fs.dst, fs.inodes, inodes0, now, round)
    ensures fs.inodes.Keys == old(fs.inodes.Keys)
  {
    var todo, done: set<Path> := FilePaths(fs.dst), {};
    while todo != {}
      invariant todo + done == FilePaths(fs.dst) && todo !! done
      invariant CopiedPaths(fs.src, pipe, fs.dst.Keys, fs.dst, fs.inodes, inodes0)
      invariant fs.inodes.Keys == old(fs.inodes.Keys)
      invariant Demoted(fs.src, todo, done, fs.dst, fs.inodes, inodes0, now, round)
      decreases todo
    {
      var p :| p in todo;
      ghost var inodes1 := fs.inodes;
      DemoteOne(fs, p, now, round, inodes0);
      OneDemoted(fs.src, pipe, todo, done, fs.dst, inodes1, fs.inodes, inodes0, now, round, p);
      todo, done := todo - {p}, done + {p};
    }
  }

  /** Backdating gives a copy its final time, whether or not another name has done so already. */
  method DemoteOne(fs: FileSystem, p: Path, now: real, round: real -> real, ghost inodes0: map<nat, Inode>)
    requires InodesKept(inodes0, fs.inodes)
    requires CarriesTime(fs.src, p, fs.dst, fs.inodes, inodes0, round)
             || Stamped(fs.src, p, fs.dst, fs.inodes, inodes0, now, round)
    modifies fs`inodes
    ensures fs.inodes.Keys == old(fs.inodes.Keys) && Stamped(fs.src, p, fs.dst, fs.inodes, inodes0, now, round)
    ensures forall i | i in old(fs.inodes) && i != fs.dst[p].ino :: fs.inodes[i] == old(fs.inodes)[i]
  {
    fs.DemoteRacyMtime(p, fs.inodes[fs.src[p].ino].mtime, now, round);
  }

  lemma CopiesAreDone(src: Tree, others: Tree, pipe: bool, copyOnly: bool, now: real, round: real -> real,
                      dst: Tree, inodes: map<nat, Inode>, inodes0: map<nat, Inode>, p: Path)
    requires Known(src, inodes0) && Known(others, inodes0)
    requires CopiedPaths(src, pipe, dst.Keys, dst, inodes, inodes0) && p in dst && dst[p].File?
    requires Stamped(src, p, dst, inodes, inodes0, now, round)
    ensures FileDone(src, others, p, copyOnly, now, round, map[], inodes0, dst, inodes)
  {
  }

  lemma VisiblePartWellFormed(src: Tree, excluded: string -> bool, dst: Tree)
    requires WellFormed(src) && dst.Keys == VisiblePaths(src, excluded)
    requires forall p | p in dst :: dst[p].Dir? <==> src[p].Dir?
    ensures WellFormed(dst) && Mirrors(src, excluded, dst)
  {
    forall p | p in dst && p != [] ensures p[..|p| - 1] in dst && dst[p[..|p| - 1]] == Dir {
      PrefixKept(excluded, p, p[..|p| - 1]);
    }
  }

  /** Fill a missing destination, by the archive pipe or file by file. */
  method ColdPopulate(fs: FileSystem, excluded: string -> bool, pipe: bool, copyOnly: bool, now: real,
                      round: real -> real)
    requires fs.Valid() && fs.dst == map[]
    modifies fs`inodes, fs`nextIno, fs`dst
    ensures fs.Valid() && Mirrors(fs.src, excluded, fs.dst) && InodesKept(old(fs.inodes), fs.inodes)
    ensures forall p | p in fs.dst && fs.dst[p].File? ::
              FileDone(fs.src, fs.others, p, copyOnly, now, round, old(fs.dst), old(fs.inodes), fs.dst, fs.inodes)
    ensures CopiesShare(fs.src, pipe, fs.dst)
  {
    CopyTree(fs, excluded, pipe, round);
    DemoteRacyMtimes(fs, now, round, pipe, old(fs.inodes));
    VisiblePartWellFormed(fs.src, excluded, fs.dst);
    forall p | p in fs.dst && fs.dst[p].File?
      ensures FileDone(fs.src, fs.others, p, copyOnly, now, round, map[], old(fs.inodes), fs.dst, fs.inodes)
    {
      CopiesAreDone(fs.src, fs.others, pipe, copyOnly, now, round, fs.dst, fs.inodes, old(fs.inodes), p);
    }
  }

  /**
   A mirrored file after a sync, in plain terms. It has the length of its source. A new inode has the
   source's contents, and its time, two seconds earlier if the source was written in the last two
   seconds. A file that kept its inode, and is no link to its source, was there before, with a time
   within a millisecond of its source's, and the source is older than two seconds.
   */
  ghost predicate PlainOutcome(src: Tree, p: Path, now: real, round: real -> real,
                               dst0: Tree, inodes0: map<nat, Inode>, dst: Tree, inodes: map<nat, Inode>) {
    && p in src && src[p].File? && src[p].ino in inodes && p in dst && dst[p].File? && dst[p].ino in inodes
    && var source, copy := inodes[src[p].ino], inodes[dst[p].ino];
    && |copy.content| == |source.content|
    && (dst[p].ino !in inodes0 ==>
          && copy.content == source.content
          && copy.mtime == round(if source.mtime <= now - 2.0 then source.mtime else source.mtime - 2.0))
    && (dst[p].ino in inodes0 && dst[p] != src[p] ==>
          && p in dst0 && dst0[p] == dst[p]
          && -0.001 < source.mtime - copy.mtime < 0.001 && source.mtime <= now - 2.0)
  }

  /** A file that was there, was nobody else's, had its source's length and time, and an old source. */
  ghost predicate WasCurrent(src: Tree, others: Tree, p: Path, now: real, dst0: Tree, inodes0: map<nat, Inode>) {
    && p in src && src[p].File? && src[p].ino in inodes0 && Sole(src, others, dst0, p) && dst0[p].ino in inodes0
    && var source, copy := inodes0[src[p].ino], inodes0[dst0[p].ino];
    && |copy.content| == |source.content|
    && -0.001 < source.mtime - copy.mtime < 0.001 && source.mtime <= now - 2.0
  }

  lemma DoneInPlainTerms(src: Tree, others: Tree, p: Path, copyOnly: bool, now: real, round: real -> real,
                         dst0: Tree, inodes0: map<nat, Inode>, dst: Tree, inodes: map<nat, Inode>)
    requires FileDone(src, others, p, copyOnly, now, round, dst0, inodes0, dst, inodes)
    requires Known(src, inodes0) && Known(dst0, inodes0) && InodesKept(inodes0, inodes)
    ensures PlainOutcome(src, p, now, round, dst0, inodes0, dst, inodes)
    ensures copyOnly && WasCurrent(src, others, p, now, dst0, inodes0) ==> dst[p] == dst0[p]
    ensures !copyOnly && p in dst0 && dst0[p] == src[p] ==> dst[p] == src[p]
  {
  }

  /**
   Mirror the source into the destination. Whatever the destination was before, it ends up with
   exactly the mirrored paths, and no inode that existed is written to. With copies only, no file of
   the destination shares an inode with a file outside it; and none shares one within it, except
   that the archive pipe, filling a missing destination, keeps the links between source files. With
   links, if all of them can be made, every file is a link to its source.
   */
  method SyncTree(fs: FileSystem, excluded: string -> bool, hardLink: bool, sameDevice: bool, linkable: Path -> bool,
                  pipe: bool, now: real, round: real -> real)
    requires fs.Valid()
    modifies fs`inodes, fs`nextIno, fs`dst
    ensures fs.Valid() && Mirrors(fs.src, excluded, fs.dst) && InodesKept(old(fs.inodes), fs.inodes)
    ensures forall p | p in fs.dst && fs.dst[p].File? ::
              FileDone(fs.src, fs.others, p, !hardLink, now, round, old(fs.dst), old(fs.inodes), fs.dst, fs.inodes)
    ensures forall p | p in fs.dst && fs.dst[p].File? ::
              PlainOutcome(fs.src, p, now, round, old(fs.dst), old(fs.inodes), fs.dst, fs.inodes)
    ensures !hardLink ==>
              forall p | p in fs.dst && WasCurrent(fs.src, fs.others, p, now, old(fs.dst), old(fs.inodes)) ::
                fs.dst[p] == old(fs.dst)[p]
    ensures hardLink ==>
              forall p | p in fs.dst && p in old(fs.dst) && old(fs.dst)[p] == fs.src[p] :: fs.dst[p] == fs.src[p]
    ensures hardLink && sameDevice && (forall p | Visible(fs.src, excluded, p) && fs.src[p].File? :: linkable(p)) ==>
              forall p | p in fs.dst && fs.dst[p].File? :: fs.dst[p] == fs.src[p]
    ensures !hardLink ==> forall p | p in fs.dst && fs.dst[p].File? :: Apart(fs.src, fs.others, fs.dst, p)
    ensures !hardLink && [] in old(fs.dst) ==>
              forall p | p in fs.dst && fs.dst[p].File? :: Sole(fs.src, fs.others, fs.dst, p)
    ensures !hardLink && [] !in old(fs.dst) ==> CopiesShare(fs.src, pipe, fs.dst)
  {
    var hard := hardLink && sameDevice;
    if [] !in fs.dst && !hard {
      NoRootNoTree(fs.dst);
      ColdPopulate(fs, excluded, pipe, !hardLink, now, round);
    } else {
      Walk(fs, excluded, !hardLink, hard, linkable, now, round);
    }
    forall p | p in fs.dst && fs.dst[p].File?
      ensures PlainOutcome(fs.src, p, now, round, old(fs.dst), old(fs.inodes), fs.dst, fs.inodes)
      ensures !hardLink && WasCurrent(fs.src, fs.others, p, now, old(fs.dst), old(fs.inodes)) ==>
                fs.dst[p] == old(fs.dst)[p]
      ensures hardLink && p in old(fs.dst) && old(fs.dst)[p] == fs.src[p] ==> fs.dst[p] == fs.src[p]
    {
      DoneInPlainTerms(fs.src, fs.others, p, !hardLink, now, round, old(fs.dst), old(fs.inodes), fs.dst, fs.inodes);
    }
  }
}
