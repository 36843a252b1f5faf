/**
 The incremental tree mirror of scripts/build_wheel.py. Trees map relative paths to directories or
 to inodes; the inode table holds contents and modification times. `others` stands for every file
 outside the source and the destination that may share an inode with them.
 */
module TreeMirror {
  type Path = seq<string>

  datatype Inode = Inode(content: seq<bv8>, mtime: real)

  datatype Entry = Dir | File(ino: nat)

  type Tree = map<Path, Entry>

  /** How recent a source modification time has to be for it not to be trusted, and how close two
      times have to be to count as equal. */
  const WINDOW: real := 2.0
  const TOLERANCE: real := 0.001

  // ---------------------------------------------------------------------------
  // Trees
  // ---------------------------------------------------------------------------

  ghost predicate WellFormed(t: Tree) {
    forall p | p in t && p != [] :: p[..|p| - 1] in t && t[p[..|p| - 1]] == Dir
  }

  /** No component of the path is excluded. */
  predicate Kept(excluded: string -> bool, p: Path) {
    forall n | n in p :: !excluded(n)
  }

  /** The path belongs to the part of the source that is mirrored. */
  predicate Visible(src: Tree, excluded: string -> bool, p: Path) {
    p in src && Kept(excluded, p)
  }

  /** The destination is the source minus the excluded names: same paths, same kinds. */
  ghost predicate Mirrors(src: Tree, excluded: string -> bool, dst: Tree) {
    && (forall p :: p in dst <==> Visible(src, excluded, p))
    && (forall p | p in dst :: dst[p].Dir? <==> src[p].Dir?)
  }

  function Links(t: Tree, i: nat): set<Path> {
    set p | p in t && t[p] == File(i)
  }

  /** The entry at `p`, if any, is the same in both trees. */
  ghost predicate SameAt(a: Tree, b: Tree, p: Path) {
    (p in a <==> p in b) && (p in a ==> a[p] == b[p])
  }

  /** The file is a link to its source. */
  predicate IsLink(src: Tree, p: Path, dst: Tree) { p in src && p in dst && dst[p] == src[p] }

  function RemoveUnder(t: Tree, q: Path): (r: Tree) {
    map p | p in t && !(q <= p) :: t[p]
  }

  lemma PrefixKept(excluded: string -> bool, p: Path, q: Path)
    requires q <= p && Kept(excluded, p)
    ensures Kept(excluded, q)
  {
    forall n | n in q ensures n in p { var i :| 0 <= i < |q| && q[i] == n; assert p[i] == n; }
  }

  /** Everything above an entry of a well-formed tree is a directory of it. */
  lemma {:induction false} AboveIsDir(t: Tree, p: Path, q: Path)
    requires WellFormed(t) && p in t && q < p
    ensures q in t && t[q] == Dir
    decreases |p|
  {
    var up := p[..|p| - 1];
    if q != up { AboveIsDir(t, up, q); }
  }

  lemma RemoveUnderWellFormed(t: Tree, q: Path)
    requires WellFormed(t)
    ensures WellFormed(RemoveUnder(t, q))
  {
    var r := RemoveUnder(t, q);
    forall p | p in r && p != [] ensures p[..|p| - 1] in r && r[p[..|p| - 1]] == Dir {
      var up := p[..|p| - 1];
      if q <= up { assert q <= p; }
    }
  }

  // ---------------------------------------------------------------------------
  // What one sync does to one file
  // ---------------------------------------------------------------------------

  function Abs(x: real): real { if x < 0.0 then -x else x }

  /** Size and time say that the copy is up to date, and the source time is old enough to say so. */
  predicate Settled(now: real, source: Inode, copy: Inode) {
    && |source.content| == |copy.content|
    && Abs(source.mtime - copy.mtime) < TOLERANCE
    && source.mtime <= now - WINDOW
  }

  /** The time a copy ends up with: the source's, backdated when the source was just written. */
  function Stamp(round: real -> real, now: real, mtime: real): real {
    if mtime <= now - WINDOW then round(mtime) else round(mtime - WINDOW)
  }

  /** The destination stores times rounded down, if not exactly. */
  ghost predicate RoundsDown(round: real -> real) {
    forall t :: round(t) <= t
  }

  /** Every file of the tree has an inode. */
  ghost predicate Known(t: Tree, inodes: map<nat, Inode>) {
    forall p | p in t && t[p].File? :: t[p].ino in inodes
  }

  /** The file shares its inode with no other file, inside or outside the destination. */
  ghost predicate Sole(src: Tree, others: Tree, dst: Tree, p: Path) {
    && p in dst && dst[p].File?
    && Links(src, dst[p].ino) == {} && Links(others, dst[p].ino) == {} && Links(dst, dst[p].ino) == {p}
  }

  /**
   A mirrored file after a sync, given the tree and the inodes before it: a link to its source, a
   new copy of it, or the unchanged file that was there and looked settled.
   */
  ghost predicate FileSynced(src: Tree, p: Path, copyOnly: bool, now: real, round: real -> real,
                             dst0: Tree, inodes0: map<nat, Inode>, dst: Tree, inodes: map<nat, Inode>) {
    && p in src && src[p].File? && src[p].ino in inodes
    && p in dst && dst[p].File? && dst[p].ino in inodes
    && var source, copy := inodes[src[p].ino], inodes[dst[p].ino];
       || (!copyOnly && dst[p] == src[p])
       || (dst[p].ino !in inodes0 && copy == Inode(source.content, Stamp(round, now, source.mtime)))
       || (p in dst0 && dst0[p] == dst[p] && Settled(now, source, copy))
  }

  /** A settled file with no other link was there before. */
  ghost predicate WasSettled(src: Tree, others: Tree, p: Path, now: real, dst0: Tree, inodes0: map<nat, Inode>) {
    && p in src && src[p].File? && src[p].ino in inodes0
    && Sole(src, others, dst0, p) && dst0[p].ino in inodes0
    && Settled(now, inodes0[src[p].ino], inodes0[dst0[p].ino])
  }

  /** The file shares its inode with no file outside the destination. */
  ghost predicate Apart(src: Tree, others: Tree, dst: Tree, p: Path) {
    p in dst && dst[p].File? && Links(src, dst[p].ino) == {} && Links(others, dst[p].ino) == {}
  }

  /** All that a sync does to one mirrored file; with copies only, no file outside shares it afterwards. */
  ghost predicate FileDone(src: Tree, others: Tree, p: Path, copyOnly: bool, now: real, round: real -> real,
                           dst0: Tree, inodes0: map<nat, Inode>, dst: Tree, inodes: map<nat, Inode>) {
    && FileSynced(src, p, copyOnly, now, round, dst0, inodes0, dst, inodes)
    && (copyOnly ==> Apart(src, others, dst, p))
    && (copyOnly && WasSettled(src, others, p, now, dst0, inodes0) ==> dst[p] == dst0[p])
    && (!copyOnly && IsLink(src, p, dst0) ==> dst[p] == dst0[p])
  }

  /** And if it was synced on its own, it is nobody else's file at all. */
  ghost predicate FileOwned(src: Tree, others: Tree, p: Path, copyOnly: bool, now: real, round: real -> real,
                            dst0: Tree, inodes0: map<nat, Inode>, dst: Tree, inodes: map<nat, Inode>) {
    && FileDone(src, others, p, copyOnly, now, round, dst0, inodes0, dst, inodes)
    && (copyOnly ==> Sole(src, others, dst, p))
  }

  /** Old inodes have gained no link in the destination. */
  ghost predicate NoNewLinks(inodes0: map<nat, Inode>, dst0: Tree, dst: Tree) {
    forall q | q in dst && dst[q].File? && dst[q].ino in inodes0 :: q in dst0 && dst0[q] == dst[q]
  }

  /** Later steps that leave the file alone leave it done. */
  lemma FileOwnedPersists(src: Tree, others: Tree, p: Path, copyOnly: bool, now: real, round: real -> real,
                         dst0: Tree, inodes0: map<nat, Inode>, dst1: Tree, inodes1: map<nat, Inode>,
                         dst2: Tree, inodes2: map<nat, Inode>)
    requires FileOwned(src, others, p, copyOnly, now, round, dst0, inodes0, dst1, inodes1)
    requires SameAt(dst2, dst1, p) && InodesKept(inodes1, inodes2)
    requires copyOnly ==> NoNewLinks(inodes1, dst1, dst2)
    ensures FileOwned(src, others, p, copyOnly, now, round, dst0, inodes0, dst2, inodes2)
  {
    if copyOnly {
      assert Links(dst2, dst2[p].ino) == {p} by {
        forall q | q in Links(dst2, dst2[p].ino) ensures q == p { assert q in Links(dst1, dst1[p].ino); }
      }
    }
  }

  /** A file that was left alone until now has been done with respect to the earlier state, too. */
  lemma FileOwnedSince(src: Tree, others: Tree, p: Path, copyOnly: bool, now: real, round: real -> real,
                      dst0: Tree, inodes0: map<nat, Inode>, dst1: Tree, inodes1: map<nat, Inode>,
                      dst2: Tree, inodes2: map<nat, Inode>)
    requires FileOwned(src, others, p, copyOnly, now, round, dst1, inodes1, dst2, inodes2)
    requires SameAt(dst1, dst0, p) && InodesKept(inodes0, inodes1)
    requires copyOnly ==> NoNewLinks(inodes0, dst0, dst1)
    ensures FileOwned(src, others, p, copyOnly, now, round, dst0, inodes0, dst2, inodes2)
  {
    if copyOnly && WasSettled(src, others, p, now, dst0, inodes0) {
      assert Links(dst1, dst1[p].ino) == {p} by {
        forall q | q in Links(dst1, dst1[p].ino) ensures q == p { assert q in Links(dst0, dst0[p].ino); }
        assert p in Links(dst1, dst1[p].ino);
      }
    }
  }

  /** No inode that existed before has been written to. */
  ghost predicate InodesKept(before: map<nat, Inode>, after: map<nat, Inode>) {
    forall i | i in before :: i in after && after[i] == before[i]
  }

  lemma SingletonOfSize<T>(s: set<T>, x: T)
    requires x in s && |s| == 1
    ensures s == {x}
  {
    if y :| y in s && y != x {
      assert {x, y} <= s;
      SubsetSize({x, y}, s);
    }
  }

  lemma {:induction false} SubsetSize<T>(a: set<T>, b: set<T>)
    requires a <= b
    ensures |a| <= |b|
  {
    if a != {} {
      var x :| x in a;
      SubsetSize(a - {x}, b - {x});
    }
  }

  lemma FileHasNothingBelow(t: Tree, p: Path)
    requires WellFormed(t) && p in t && t[p].File?
    ensures WellFormed(t - {p})
    ensures forall q | p < q :: q !in t
  {
    forall q | p < q ensures q !in t {
      if q in t { AboveIsDir(t, q, p); }
    }
  }

  lemma ReplaceEntry(t: Tree, p: Path, e: Entry)
    ensures (t - {p})[p := e] == t[p := e]
    ensures p !in t ==> t - {p} == t
  {
  }

  lemma PutTwice(inodes: map<nat, Inode>, i: nat, first: Inode, second: Inode)
    ensures inodes[i := first][i := second] == inodes[i := second]
  {
  }

  lemma AddEntry(t: Tree, p: Path, e: Entry)
    requires WellFormed(t) && p != [] && p !in t && p[..|p| - 1] in t && t[p[..|p| - 1]] == Dir
    ensures WellFormed(t[p := e])
  {
  }

  lemma NewInodeIsSole(src: Tree, others: Tree, dst: Tree, inodes: map<nat, Inode>, p: Path, i: nat)
    requires Known(src, inodes) && Known(others, inodes) && Known(dst, inodes)
    ensures i !in inodes ==> Sole(src, others, dst[p := File(i)], p)
  {
  }

  // ---------------------------------------------------------------------------
  // Folders
  // ---------------------------------------------------------------------------

  /** The names in folder `d` that are mirrored as files, and as folders. */
  function FilesIn(src: Tree, excluded: string -> bool, d: Path): (r: set<string>) {
    set p | p in src && d < p && |p| == |d| + 1 && src[p].File? && !excluded(p[|d|]) :: p[|d|]
  }

  function DirsIn(src: Tree, excluded: string -> bool, d: Path): (r: set<string>) {
    set p | p in src && d < p && |p| == |d| + 1 && src[p].Dir? && !excluded(p[|d|]) :: p[|d|]
  }

  lemma NamesIn(src: Tree, excluded: string -> bool, d: Path, n: string)
    ensures n in FilesIn(src, excluded, d) <==> d + [n] in src && src[d + [n]].File? && !excluded(n)
    ensures n in DirsIn(src, excluded, d) <==> d + [n] in src && src[d + [n]].Dir? && !excluded(n)
  {
    var q := d + [n];
    assert d < q && |q| == |d| + 1 && q[|d|] == n;
    forall p | d < p && |p| == |d| + 1 && p[|d|] == n ensures p == q { assert p == p[..|d|] + [p[|d|]]; }
  }

  /** The names found in folder `d` of a tree. */
  function NamesAt(t: Tree, d: Path): set<string> {
    set p | p in t && d < p :: p[|d|]
  }

  /** The tree without what lies in folder `d` under a name of `gone`. */
  function DropChildren(t: Tree, d: Path, gone: set<string>): Tree {
    map p | p in t && !(d < p && p[|d|] in gone) :: t[p]
  }

  lemma DropOneMore(t: Tree, d: Path, gone: set<string>, n: string)
    ensures RemoveUnder(DropChildren(t, d, gone), d + [n]) == DropChildren(t, d, gone + {n})
  {
    forall p ensures d + [n] <= p <==> d < p && p[|d|] == n {
      if d < p && p[|d|] == n { assert d + [n] == p[..|d| + 1]; }
      if d + [n] <= p { assert p[|d|] == (d + [n])[|d|]; }
    }
  }

  lemma DropChildrenWellFormed(t: Tree, d: Path, gone: set<string>)
    requires WellFormed(t)
    ensures WellFormed(DropChildren(t, d, gone))
  {
    var r := DropChildren(t, d, gone);
    forall p | p in r && p != [] ensures p[..|p| - 1] in r && r[p[..|p| - 1]] == Dir {
      var up := p[..|p| - 1];
      if d < up { assert d < p && p[|d|] == up[|d|]; }
    }
  }

  lemma MakeDir(t: Tree, d: Path)
    requires WellFormed(t) && d !in t
    requires d != [] ==> d[..|d| - 1] in t && t[d[..|d| - 1]] == Dir
    ensures WellFormed(t[d := Dir])
    ensures forall q | d < q :: q !in t
  {
    forall q | d < q ensures q !in t {
      if q in t { AboveIsDir(t, q, d); }
    }
  }

  /** A folder made new, or cleared of stale names: mirrored names are as they were. */
  lemma FolderReady(dst0: Tree, base: Tree, d: Path, keep: set<string>, isNew: bool)
    requires WellFormed(dst0)
    requires isNew ==> (d !in dst0 || dst0[d].File?) && base == dst0[d := Dir]
    requires !isNew ==> d in dst0 && dst0[d] == Dir && base == DropChildren(dst0, d, NamesAt(dst0, d) - keep)
    ensures forall q | q != d && !(d < q && q[|d|] !in keep) :: SameAt(base, dst0, q)
    ensures forall q | q in base && d < q :: !isNew && q[|d|] in keep
    ensures forall inodes0 :: NoNewLinks(inodes0, dst0, base)
    ensures d in base && base[d] == Dir
  {
    if isNew {
      forall q | d < q ensures q !in dst0 {
        if q in dst0 { AboveIsDir(dst0, q, d); }
      }
    }
  }

  /** The named files of a folder have been synced, and nothing else has changed. */
  ghost predicate FilesDone(src: Tree, others: Tree, d: Path, files: set<string>, copyOnly: bool, now: real,
                            round: real -> real, dst0: Tree, inodes0: map<nat, Inode>,
                            dst: Tree, inodes: map<nat, Inode>) {
    && InodesKept(inodes0, inodes)
    && (forall q | !(d < q && q[|d|] in files) :: SameAt(dst, dst0, q))
    && (forall f | f in files :: FileOwned(src, others, d + [f], copyOnly, now, round, dst0, inodes0, dst, inodes))
    && (copyOnly ==> NoNewLinks(inodes0, dst0, dst))
  }

  /** The named files of a folder are links to their sources. */
  ghost predicate Linked(src: Tree, d: Path, files: set<string>, dst: Tree) {
    forall f | f in files :: IsLink(src, d + [f], dst)
  }

  ghost predicate AllLinkable(linkable: Path -> bool, d: Path, files: set<string>) {
    forall f | f in files :: linkable(d + [f])
  }

  lemma OneMoreLinked(src: Tree, d: Path, done: set<string>, n: string, dst1: Tree, dst: Tree)
    requires Linked(src, d, done, dst1) && n !in done && IsLink(src, d + [n], dst)
    requires forall q | !(d + [n] <= q) :: SameAt(dst, dst1, q)
    ensures Linked(src, d, done + {n}, dst)
  {
    forall f | f in done ensures SameAt(dst, dst1, d + [f]) {
      assert (d + [f])[|d|] == f && (d + [n])[|d|] == n;
    }
  }

  /** What syncing the file at `p` does: the file is done, and nothing outside it has changed. */
  ghost predicate FileStep(src: Tree, others: Tree, p: Path, copyOnly: bool, now: real, round: real -> real,
                           dst0: Tree, inodes0: map<nat, Inode>, dst: Tree, inodes: map<nat, Inode>) {
    && InodesKept(inodes0, inodes)
    && (forall q | !(p <= q) :: SameAt(dst, dst0, q))
    && FileOwned(src, others, p, copyOnly, now, round, dst0, inodes0, dst, inodes)
    && (copyOnly ==> NoNewLinks(inodes0, dst0, dst))
  }

  /** What installing a file comes to, once whatever was in its place is gone or about to be replaced. */
  lemma Installed(src: Tree, others: Tree, p: Path, copyOnly: bool, now: real, round: real -> real,
                  dst0: Tree, mid: Tree, inodes0: map<nat, Inode>, dst: Tree, inodes: map<nat, Inode>,
                  i: nat, hard: bool)
    requires Known(src, inodes0) && Known(others, inodes0) && Known(dst0, inodes0) && p in src && src[p].File?
    requires forall q | q in mid :: q in dst0 && mid[q] == dst0[q]
    requires forall q | q in dst0 && !(p <= q) :: q in mid
    requires copyOnly ==> !hard && !WasSettled(src, others, p, now, dst0, inodes0)
    requires !copyOnly ==> !IsLink(src, p, dst0)
    requires hard ==> dst == mid[p := src[p]] && inodes == inodes0
    requires !hard ==>
               && i !in inodes0 && dst == mid[p := File(i)]
               && var source := inodes0[src[p].ino];
               inodes == inodes0[i := Inode(source.content, Stamp(round, now, source.mtime))]
    ensures FileStep(src, others, p, copyOnly, now, round, dst0, inodes0, dst, inodes)
  {
    NewInodeIsSole(src, others, mid, inodes0, p, i);
  }

  /** The folder and the files not synced yet are as they were. */
  lemma StillThere(src: Tree, others: Tree, d: Path, done: set<string>, n: string, copyOnly: bool, now: real,
                   round: real -> real, dst0: Tree, inodes0: map<nat, Inode>, dst: Tree, inodes: map<nat, Inode>)
    requires FilesDone(src, others, d, done, copyOnly, now, round, dst0, inodes0, dst, inodes) && n !in done
    ensures SameAt(dst, dst0, d) && SameAt(dst, dst0, d + [n]) && d < d + [n]
  {
    assert (d + [n])[|d|] == n;
  }

  lemma OneMoreFile(src: Tree, others: Tree, d: Path, done: set<string>, n: string, copyOnly: bool, now: real,
                    round: real -> real, dst0: Tree, inodes0: map<nat, Inode>, dst1: Tree, inodes1: map<nat, Inode>,
                    dst: Tree, inodes: map<nat, Inode>)
    requires FilesDone(src, others, d, done, copyOnly, now, round, dst0, inodes0, dst1, inodes1) && n !in done
    requires FileStep(src, others, d + [n], copyOnly, now, round, dst1, inodes1, dst, inodes)
    ensures FilesDone(src, others, d, done + {n}, copyOnly, now, round, dst0, inodes0, dst, inodes)
  {
    var p := d + [n];
    assert p[|d|] == n;
    FileOwnedSince(src, others, p, copyOnly, now, round, dst0, inodes0, dst1, inodes1, dst, inodes);
    forall f | f in done ensures FileOwned(src, others, d + [f], copyOnly, now, round, dst0, inodes0, dst, inodes) {
      var q := d + [f];
      assert q[|d|] == f != n;
      assert !(p <= q);
      FileOwnedPersists(src, others, q, copyOnly, now, round, dst0, inodes0, dst1, inodes1, dst, inodes);
    }
    forall q | !(d < q && q[|d|] in done + {n}) ensures SameAt(dst, dst0, q) {
      assert !(p <= q);
      assert SameAt(dst, dst1, q) && SameAt(dst1, dst0, q);
    }
  }

  /** Preparing a folder and syncing its files, taken together. */
  lemma FolderSynced(src: Tree, others: Tree, d: Path, files: set<string>, dirs: set<string>,
                     copyOnly: bool, now: real, round: real -> real,
                     dst0: Tree, inodes0: map<nat, Inode>, base: Tree, dst: Tree, inodes: map<nat, Inode>)
    requires forall q | q != d && !(d < q && q[|d|] !in dirs + files) :: SameAt(base, dst0, q)
    requires forall q | q in base && d < q :: q[|d|] in dirs + files
    requires NoNewLinks(inodes0, dst0, base)
    requires FilesDone(src, others, d, files, copyOnly, now, round, base, inodes0, dst, inodes)
    requires dirs !! files
    ensures forall f | f in files :: FileOwned(src, others, d + [f], copyOnly, now, round, dst0, inodes0, dst, inodes)
    ensures forall q | q != d && !(d < q && q[|d|] !in dirs) :: SameAt(dst, dst0, q)
    ensures forall q | q in dst && d < q :: q[|d|] in files + dirs
    ensures (forall q | d < q :: q !in base) ==> forall q | q in dst && d < q :: q[|d|] in files
    ensures copyOnly ==> NoNewLinks(inodes0, dst0, dst)
  {
    forall f | f in files ensures FileOwned(src, others, d + [f], copyOnly, now, round, dst0, inodes0, dst, inodes) {
      assert (d + [f])[|d|] == f;
      FileOwnedSince(src, others, d + [f], copyOnly, now, round, dst0, inodes0, base, inodes0, dst, inodes);
    }
    forall q | q != d && !(d < q && q[|d|] !in dirs) ensures SameAt(dst, dst0, q) {
      assert SameAt(dst, base, q) && SameAt(base, dst0, q);
    }
    forall q | q in dst && d < q ensures q[|d|] in files || (q[|d|] in dirs && q in base) {
      if q[|d|] !in files { assert SameAt(dst, base, q); }
    }
  }

  class FileSystem {
    var inodes: map<nat, Inode>
    var nextIno: nat
    var src: Tree
    var others: Tree
    var dst: Tree

    ghost predicate Valid()
      reads this
    {
      && WellFormed(src) && [] in src && src[[]] == Dir && WellFormed(dst)
      && Known(src, inodes) && Known(others, inodes) && Known(dst, inodes)
      && forall i | i in inodes :: i < nextIno
    }

    /** The link count of an inode. */
    function NLink(i: nat): nat
      reads this
    {
      |Links(src, i)| + |Links(others, i)| + |Links(dst, i)|
    }

    lemma SoleByCount(p: Path)
      requires p in dst && dst[p].File?
      ensures NLink(dst[p].ino) == 1 <==> Sole(src, others, dst, p)
    {
      var i := dst[p].ino;
      assert p in Links(dst, i);
      if |Links(dst, i)| == 1 { SingletonOfSize(Links(dst, i), p); }
    }

    /** Copy contents and time of the source file into a new inode. */
    method CopyFile(p: Path, round: real -> real)
      requires Valid() && p in src && src[p].File? && p !in dst && p != []
      requires p[..|p| - 1] in dst && dst[p[..|p| - 1]] == Dir
      modifies this`inodes, this`nextIno, this`dst
      ensures Valid()
      ensures dst == old(dst)[p := File(old(nextIno))]
      ensures var source := old(inodes)[src[p].ino];
              inodes == old(inodes)[old(nextIno) := Inode(source.content, round(source.mtime))]
    {
      var source := inodes[src[p].ino];
      inodes := inodes[nextIno := Inode(source.content, round(source.mtime))];
      dst := dst[p := File(nextIno)];
      nextIno := nextIno + 1;
    }

    /** Backdate the copy of a source that was just written. */
    method DemoteRacyMtime(p: Path, mtime: real, now: real, round: real -> real)
      requires p in dst && dst[p].File? && dst[p].ino in inodes
      modifies this`inodes
      ensures var i := dst[p].ino;
              var time := if mtime <= now - WINDOW then old(inodes)[i].mtime else round(mtime - WINDOW);
              inodes == old(inodes)[i := Inode(old(inodes)[i].content, time)]
    {
      var i := dst[p].ino;
      if mtime <= now - WINDOW { return; }
      inodes := inodes[i := Inode(inodes[i].content, round(mtime - WINDOW))];
    }

    method Unlink(p: Path)
      requires Valid() && p in dst && dst[p].File?
      modifies this`dst
      ensures Valid() && dst == old(dst) - {p}
    {
      FileHasNothingBelow(dst, p);
      dst := dst - {p};
    }

    /** Install the source file as a link if wanted and possible, otherwise as a copy. */
    method LinkOrCopyFile(p: Path, hardLink: bool, linkable: Path -> bool, round: real -> real) returns (linked: bool)
      requires Valid() && p in src && src[p].File? && p != []
      requires p in dst ==> dst[p].File?
      requires p[..|p| - 1] in dst && dst[p[..|p| - 1]] == Dir
      modifies this`inodes, this`nextIno, this`dst
      ensures Valid()
      ensures linked <==> hardLink && linkable(p)
      ensures linked ==> dst == old(dst)[p := src[p]] && inodes == old(inodes)
      ensures !linked ==>
                && dst == old(dst)[p := File(old(nextIno))]
                && var source := old(inodes)[src[p].ino];
                inodes == old(inodes)[old(nextIno) := Inode(source.content, round(source.mtime))]
    {
      if p in dst { Unlink(p); }
      ReplaceEntry(old(dst), p, src[p]);
      ReplaceEntry(old(dst), p, File(nextIno));
      if hardLink && linkable(p) {
        AddEntry(dst, p, src[p]);
        dst := dst[p := src[p]];
        return true;
      }
      CopyFile(p, round);
      return false;
    }

    /** One file of a folder that was there before. */
    method SyncFile(p: Path, copyOnly: bool, hardLink: bool, linkable: Path -> bool, now: real, round: real -> real)
      returns (hard: bool)
      requires Valid() && p in src && src[p].File? && p != []
      requires p[..|p| - 1] in dst && dst[p[..|p| - 1]] == Dir
      requires copyOnly ==> !hardLink
      modifies this`inodes, this`nextIno, this`dst
      ensures Valid()
      ensures FileStep(src, others, p, copyOnly, now, round, old(dst), old(inodes), dst, inodes)
      ensures hard ==> hardLink && IsLink(src, p, dst)
      ensures hardLink && linkable(p) ==> hard
    {
      var source := inodes[src[p].ino];
      if p in dst && dst[p].File? {
        if dst[p] == src[p] && !copyOnly { return hardLink; }
        SoleByCount(p);
        if !hardLink && NLink(dst[p].ino) == 1 && Settled(now, source, inodes[dst[p].ino]) { return hardLink; }
      }
      assert copyOnly ==> !WasSettled(src, others, p, now, dst, inodes);
      if p in dst && dst[p].Dir? { RemoveTree(p); }
      ghost var mid, ino := dst, nextIno;
      hard := InstallFile(p, hardLink, linkable, now, round, source);
      Installed(src, others, p, copyOnly, now, round, old(dst), mid, old(inodes), dst, inodes, ino, hard);
    }

    /** Delete a folder with everything in it. */
    method RemoveTree(p: Path)
      requires Valid() && p != []
      modifies this`dst
      ensures Valid() && dst == RemoveUnder(old(dst), p)
      ensures var up := p[..|p| - 1]; up in old(dst) && old(dst)[up] == Dir ==> up in dst && dst[up] == Dir
    {
      RemoveUnderWellFormed(dst, p);
      dst := RemoveUnder(dst, p);
    }

    /** Link or copy, then backdate a copy whose source was just written. */
    method InstallFile(p: Path, hardLink: bool, linkable: Path -> bool, now: real, round: real -> real, source: Inode)
      returns (hard: bool)
      requires Valid() && p in src && src[p].File? && p != [] && source == inodes[src[p].ino]
      requires p in dst ==> dst[p].File?
      requires p[..|p| - 1] in dst && dst[p[..|p| - 1]] == Dir
      modifies this`inodes, this`nextIno, this`dst
      ensures Valid()
      ensures hard <==> hardLink && linkable(p)
      ensures hard ==> dst == old(dst)[p := src[p]] && inodes == old(inodes)
      ensures !hard ==>
                && dst == old(dst)[p := File(old(nextIno))]
                && inodes == old(inodes)[old(nextIno) := Inode(source.content, Stamp(round, now, source.mtime))]
    {
      ghost var ino := nextIno;
      hard := LinkOrCopyFile(p, hardLink, linkable, round);
      if !hard {
        PutTwice(old(inodes), ino, Inode(source.content, round(source.mtime)),
                 Inode(source.content, Stamp(round, now, source.mtime)));
        DemoteRacyMtime(p, source.mtime, now, round);
      }
    }

    /** Delete what the folder holds under names that are not mirrored. */
    method RemoveStale(d: Path, keep: set<string>)
      requires Valid() && d in dst && dst[d] == Dir
      modifies this`dst
      ensures Valid()
      ensures dst == DropChildren(old(dst), d, NamesAt(old(dst), d) - keep)
    {
      var stale := NamesAt(dst, d) - keep;
      var gone: set<string> := {};
      assert DropChildren(dst, d, gone) == dst;
      while stale != {}
        invariant Valid()
        invariant stale + gone == NamesAt(old(dst), d) - keep && stale !! gone
        invariant dst == DropChildren(old(dst), d, gone)
        decreases stale
      {
        var n :| n in stale;
        DropOneMore(old(dst), d, gone, n);
        DropChildrenWellFormed(old(dst), d, gone + {n});
        dst := RemoveUnder(dst, d + [n]);
        stale, gone := stale - {n}, gone + {n};
      }
    }

    /** One file of a folder that this sync has just made: nothing can be in its place. */
    method InstallFileInNewFolder(p: Path, copyOnly: bool, hardLink: bool, linkable: Path -> bool, now: real,
                                  round: real -> real)
      returns (hard: bool)
      requires Valid() && p in src && src[p].File? && p != [] && p !in dst
      requires p[..|p| - 1] in dst && dst[p[..|p| - 1]] == Dir
      requires copyOnly ==> !hardLink
      modifies this`inodes, this`nextIno, this`dst
      ensures Valid()
      ensures FileStep(src, others, p, copyOnly, now, round, old(dst), old(inodes), dst, inodes)
      ensures hard ==> hardLink && IsLink(src, p, dst)
      ensures hardLink && linkable(p) ==> hard
    {
      ghost var ino := nextIno;
      hard := InstallFile(p, hardLink, linkable, now, round, inodes[src[p].ino]);
      Installed(src, others, p, copyOnly, now, round, old(dst), old(dst), old(inodes), dst, inodes, ino, hard);
    }

    /** A file of folder `d`, by the way that fits the folder. */
    method SyncOneFile(d: Path, n: string, isNew: bool, copyOnly: bool, hardLink: bool, linkable: Path -> bool,
                       now: real, round: real -> real)
      returns (hard: bool)
      requires Valid() && d in dst && dst[d] == Dir && d + [n] in src && src[d + [n]].File?
      requires isNew ==> d + [n] !in dst
      requires copyOnly ==> !hardLink
      modifies this`inodes, this`nextIno, this`dst
      ensures Valid()
      ensures FileStep(src, others, d + [n], copyOnly, now, round, old(dst), old(inodes), dst, inodes)
      ensures hard ==> hardLink && IsLink(src, d + [n], dst)
      ensures hardLink && linkable(d + [n]) ==> hard
    {
      var p := d + [n];
      assert p[..|p| - 1] == d;
      if isNew {
        hard := InstallFileInNewFolder(p, copyOnly, hardLink, linkable, now, round);
      } else {
        hard := SyncFile(p, copyOnly, hardLink, linkable, now, round);
      }
    }

    /** The files of one folder, in any order. */
    method SyncFiles(d: Path, files: set<string>, isNew: bool, copyOnly: bool, hardLink: bool,
                     linkable: Path -> bool, now: real, round: real -> real)
      returns (hard: bool)
      requires Valid() && d in dst && dst[d] == Dir
      requires forall f | f in files :: d + [f] in src && src[d + [f]].File?
      requires isNew ==> forall q | d < q :: q !in dst
      requires copyOnly ==> !hardLink
      modifies this`inodes, this`nextIno, this`dst
      ensures Valid()
      ensures FilesDone(src, others, d, files, copyOnly, now, round, old(dst), old(inodes), dst, inodes)
      ensures hard ==> hardLink && Linked(src, d, files, dst)
      ensures hardLink && AllLinkable(linkable, d, files) ==> hard
    {
      hard := hardLink;
      var todo, done := files, {};
      while todo != {}
        invariant Valid() && todo + done == files && todo !! done
        invariant FilesDone(src, others, d, done, copyOnly, now, round, old(dst), old(inodes), dst, inodes)
        invariant hard ==> hardLink && Linked(src, d, done, dst)
        invariant hardLink && AllLinkable(linkable, d, files) ==> hard
        decreases todo
      {
        var n :| n in todo;
        StillThere(src, others, d, done, n, copyOnly, now, round, old(dst), old(inodes), dst, inodes);
        ghost var dst1, inodes1 := dst, inodes;
        hard := SyncOneFile(d, n, isNew, copyOnly, hard, linkable, now, round);
        OneMoreFile(src, others, d, done, n, copyOnly, now, round, old(dst), old(inodes), dst1, inodes1, dst, inodes);
        if hard { OneMoreLinked(src, d, done, n, dst1, dst); }
        todo, done := todo - {n}, done + {n};
      }
    }

    /** One folder: make it or clear it of stale names, then sync its files. */
    method SyncFolder(d: Path, files: set<string>, dirs: set<string>, parentIsNew: bool, copyOnly: bool, hardLink: bool,
                      linkable: Path -> bool, now: real, round: real -> real)
      returns (hard: bool, isNew: bool)
      requires Valid() && files !! dirs
      requires forall f | f in files :: d + [f] in src && src[d + [f]].File?
      requires d != [] ==> d[..|d| - 1] in dst && dst[d[..|d| - 1]] == Dir
      requires parentIsNew ==> d !in dst
      requires copyOnly ==> !hardLink
      modifies this`inodes, this`nextIno, this`dst
      ensures Valid() && d in dst && dst[d] == Dir
      ensures InodesKept(old(inodes), inodes)
      ensures forall q | q != d && !(d < q && q[|d|] !in dirs) :: SameAt(dst, old(dst), q)
      ensures forall q | q in dst && d < q :: q[|d|] in files + dirs
      ensures isNew ==> forall q | q in dst && d < q :: q[|d|] in files
      ensures forall f | f in files ::
                FileOwned(src, others, d + [f], copyOnly, now, round, old(dst), old(inodes), dst, inodes)
      ensures copyOnly ==> NoNewLinks(old(inodes), old(dst), dst)
      ensures hard ==> hardLink && Linked(src, d, files, dst)
      ensures hardLink && AllLinkable(linkable, d, files) ==> hard
    {
      isNew := PrepareFolder(d, dirs + files, parentIsNew);
      ghost var base := dst;
      hard := SyncFiles(d, files, isNew, copyOnly, hardLink, linkable, now, round);
      FolderSynced(src, others, d, files, dirs, copyOnly, now, round, old(dst), old(inodes), base, dst, inodes);
      assert SameAt(dst, base, d);
    }

    method MakeFolder(d: Path)
      requires Valid() && d !in dst
      requires d != [] ==> d[..|d| - 1] in dst && dst[d[..|d| - 1]] == Dir
      modifies this`dst
      ensures Valid() && dst == old(dst)[d := Dir]
    {
      MakeDir(dst, d);
      dst := dst[d := Dir];
    }

    /** Make the folder, replacing a file, or clear it of stale names. */
    method PrepareFolder(d: Path, keep: set<string>, parentIsNew: bool) returns (isNew: bool)
      requires Valid()
      requires d != [] ==> d[..|d| - 1] in dst && dst[d[..|d| - 1]] == Dir
      requires parentIsNew ==> d !in dst
      modifies this`dst
      ensures Valid() && d in dst && dst[d] == Dir
      ensures forall q | q != d && !(d < q && q[|d|] !in keep) :: SameAt(dst, old(dst), q)
      ensures forall q | q in dst && d < q :: !isNew && q[|d|] in keep
      ensures NoNewLinks(inodes, old(dst), dst)
    {
      isNew := parentIsNew;
      if !isNew {
        if d in dst && dst[d].File? { Unlink(d); }
        isNew := d !in dst;
      }
      if isNew {
        ReplaceEntry(old(dst), d, Dir);
        MakeFolder(d);
      } else {
        RemoveStale(d, keep);
      }
      FolderReady(old(dst), dst, d, keep, isNew);
    }
  }
}
