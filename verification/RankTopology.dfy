/**
 Rank coordinates, process groups and neighbours of tensorrt_llm/mapping.py (the MPI topology), for
 all tensor-, pipeline- and context-parallel sizes.
 */
module RankTopology {
  import opened MixedRadix

  datatype Shape = Shape(tp: Positive, pp: Positive, cp: Positive) {
    /** All ranks. */
    function World(): int { pp * (tp * cp) }
  }

  /** A Python range with a positive step. */
  function PyRange(start: int, stop: int, step: Positive): seq<int>
    decreases stop - start
  {
    if start >= stop then [] else [start] + PyRange(start + step, stop, step)
  }

  /** `n` numbers, `step` apart. */
  function Steps(start: int, step: int, n: nat): (r: seq<int>)
    ensures |r| == n && forall k | 0 <= k < n :: r[k] == start + k * step
  {
    seq(n, k requires 0 <= k < n => start + k * step)
  }

  /** A range that stops after its `n`-th number and before the next one. */
  lemma {:induction false} RangeIsSteps(start: int, stop: int, step: Positive, n: nat)
    requires n == 0 ==> stop <= start
    requires n > 0 ==> start + (n - 1) * step < stop <= start + n * step
    ensures PyRange(start, stop, step) == Steps(start, step, n)
    decreases n
  {
    if n > 0 {
      MulMonotone(0, n - 1, step);
      RangeIsSteps(start + step, stop, step, n - 1);
      var a, b := [start] + Steps(start + step, step, n - 1), Steps(start, step, n);
      forall k | 0 <= k < n ensures a[k] == b[k] {
        if k > 0 { assert start + step + (k - 1) * step == start + k * step; }
      }
    }
  }

  // ---------------------------------------------------------------------------
  // Coordinates
  // ---------------------------------------------------------------------------

  function TpRank(s: Shape, rank: nat): nat { rank % (s.tp * s.cp) / s.cp }
  function PpRank(s: Shape, rank: nat): nat { rank / (s.tp * s.cp) }
  function CpRank(s: Shape, rank: nat): nat { rank % s.cp }

  /** The rank at given coordinates. */
  function RankAt(s: Shape, p: nat, t: nat, c: nat): nat { p * (s.tp * s.cp) + (t * s.cp + c) }

  ghost predicate InShape(s: Shape, p: nat, t: nat, c: nat) { p < s.pp && t < s.tp && c < s.cp }

  lemma StageModulo(p: nat, tp: Positive, cp: Positive, i: nat)
    ensures (p * (tp * cp) + i) % cp == i % cp
  {
    QuotientBounds(i, cp);
    assert p * (tp * cp) + i == (p * tp + i / cp) * cp + i % cp;
    DigitsDecode(p * tp + i / cp, i % cp, cp);
  }

  /** Coordinates and rank determine each other. */
  lemma CoordinatesOfRank(s: Shape, p: nat, t: nat, c: nat)
    requires InShape(s, p, t, c)
    ensures RankAt(s, p, t, c) < s.World()
    ensures PpRank(s, RankAt(s, p, t, c)) == p && TpRank(s, RankAt(s, p, t, c)) == t
            && CpRank(s, RankAt(s, p, t, c)) == c
  {
    InBlock(t, s.tp, s.cp, c);
    InBlock(p, s.pp, s.tp * s.cp, t * s.cp + c);
    DigitsDecode(p, t * s.cp + c, s.tp * s.cp);
    DigitsDecode(t, c, s.cp);
    StageModulo(p, s.tp, s.cp, t * s.cp + c);
  }

  lemma Decomposed(rank: nat, tp: Positive, cp: Positive, stage: Positive)
    requires stage == tp * cp
    ensures rank == rank / stage * stage + (rank % stage / cp * cp + rank % cp)
    ensures rank % stage / cp < tp
  {
    var p, i := rank / stage, rank % stage;
    QuotientBounds(rank, stage);
    assert rank % cp == i % cp by { StageModulo(p, tp, cp, i); }
    QuotientInRange(i, tp, cp);
  }

  lemma RankOfCoordinates(s: Shape, rank: nat)
    requires rank < s.World()
    ensures InShape(s, PpRank(s, rank), TpRank(s, rank), CpRank(s, rank))
    ensures RankAt(s, PpRank(s, rank), TpRank(s, rank), CpRank(s, rank)) == rank
  {
    var stage := s.tp * s.cp;
    Decomposed(rank, s.tp, s.cp, stage);
    assert rank / stage < s.pp by { QuotientInRange(rank, s.pp, stage); }
  }

  // ---------------------------------------------------------------------------
  // Groups
  // ---------------------------------------------------------------------------

  /** Place `k` of group `g` exists. */
  ghost predicate Place(groups: seq<seq<int>>, g: int, k: int) {
    0 <= g < |groups| && 0 <= k < |groups[g]|
  }

  ghost predicate Occurs(groups: seq<seq<int>>, r: int) {
    exists g, k :: Place(groups, g, k) && groups[g][k] == r
  }

  /** Every rank is in exactly one place of exactly one group, and nothing else is in the groups. */
  ghost predicate Partitions(groups: seq<seq<int>>, n: int) {
    && (forall g, k | Place(groups, g, k) :: 0 <= groups[g][k] < n)
    && (forall r | 0 <= r < n :: Occurs(groups, r))
    && forall g, k, h, l | Place(groups, g, k) && Place(groups, h, l) && groups[g][k] == groups[h][l] ::
        g == h && k == l
  }

  function TpGroup(s: Shape, i: nat, j: nat): (r: seq<int>)
    ensures |r| == s.tp && forall t | 0 <= t < s.tp :: r[t] == RankAt(s, i, t, j)
  {
    seq(s.tp, t requires 0 <= t < s.tp => RankAt(s, i, t, j))
  }

  function CpGroup(s: Shape, i: nat, j: nat): (r: seq<int>)
    ensures |r| == s.cp && forall c | 0 <= c < s.cp :: r[c] == RankAt(s, i, j, c)
  {
    seq(s.cp, c requires 0 <= c < s.cp => RankAt(s, i, j, c))
  }

  function PpGroup(s: Shape, i: nat): (r: seq<int>)
    ensures |r| == s.pp && forall p | 0 <= p < s.pp :: r[p] == p * (s.tp * s.cp) + i
  {
    seq(s.pp, p requires 0 <= p < s.pp => p * (s.tp * s.cp) + i)
  }

  function TpGroups(s: Shape): (r: seq<seq<int>>)
    ensures |r| == s.pp * s.cp && forall g | 0 <= g < |r| :: r[g] == TpGroup(s, g / s.cp, g % s.cp)
  {
    seq(s.pp * s.cp, g requires 0 <= g < s.pp * s.cp => TpGroup(s, g / s.cp, g % s.cp))
  }

  function CpGroups(s: Shape): (r: seq<seq<int>>)
    ensures |r| == s.pp * s.tp && forall g | 0 <= g < |r| :: r[g] == CpGroup(s, g / s.tp, g % s.tp)
  {
    seq(s.pp * s.tp, g requires 0 <= g < s.pp * s.tp => CpGroup(s, g / s.tp, g % s.tp))
  }

  function PpGroups(s: Shape): (r: seq<seq<int>>)
    ensures |r| == s.tp * s.cp && forall g | 0 <= g < |r| :: r[g] == PpGroup(s, g)
  {
    seq(s.tp * s.cp, g requires 0 <= g < s.tp * s.cp => PpGroup(s, g))
  }

  /** Place `k` of tensor group `g` belongs to the rank with these coordinates. */
  lemma TpPlace(s: Shape, g: nat, k: nat) returns (p: nat, c: nat)
    requires Place(TpGroups(s), g, k)
    ensures p == g / s.cp && c == g % s.cp
    ensures InShape(s, p, k, c) && TpGroups(s)[g][k] == RankAt(s, p, k, c)
  {
    QuotientInRange(g, s.pp, s.cp);
    p, c := g / s.cp, g % s.cp;
  }

  /** And so for context groups, */
  lemma CpPlace(s: Shape, g: nat, k: nat) returns (p: nat, t: nat)
    requires Place(CpGroups(s), g, k)
    ensures p == g / s.tp && t == g % s.tp
    ensures InShape(s, p, t, k) && CpGroups(s)[g][k] == RankAt(s, p, t, k)
  {
    QuotientInRange(g, s.pp, s.tp);
    p, t := g / s.tp, g % s.tp;
  }

  /** and for pipeline groups. */
  lemma PpPlace(s: Shape, g: nat, k: nat) returns (t: nat, c: nat)
    requires Place(PpGroups(s), g, k)
    ensures t == g / s.cp && c == g % s.cp
    ensures InShape(s, k, t, c) && PpGroups(s)[g][k] == RankAt(s, k, t, c)
  {
    QuotientInRange(g, s.tp, s.cp);
    t, c := g / s.cp, g % s.cp;
  }

  /** The rank in a place has the coordinates of the place. */
  lemma TpPlaceCoordinates(s: Shape, g: nat, k: nat)
    requires Place(TpGroups(s), g, k)
    ensures var x := TpGroups(s)[g][k];
            0 <= x < s.World() && PpRank(s, x) == g / s.cp && TpRank(s, x) == k && CpRank(s, x) == g % s.cp
  {
    var p, c := TpPlace(s, g, k);
    CoordinatesOfRank(s, p, k, c);
  }

  lemma CpPlaceCoordinates(s: Shape, g: nat, k: nat)
    requires Place(CpGroups(s), g, k)
    ensures var x := CpGroups(s)[g][k];
            0 <= x < s.World() && PpRank(s, x) == g / s.tp && TpRank(s, x) == g % s.tp && CpRank(s, x) == k
  {
    var p, t := CpPlace(s, g, k);
    CoordinatesOfRank(s, p, t, k);
  }

  lemma PpPlaceCoordinates(s: Shape, g: nat, k: nat)
    requires Place(PpGroups(s), g, k)
    ensures var x := PpGroups(s)[g][k];
            0 <= x < s.World() && PpRank(s, x) == k && TpRank(s, x) == g / s.cp && CpRank(s, x) == g % s.cp
  {
    var t, c := PpPlace(s, g, k);
    CoordinatesOfRank(s, k, t, c);
  }

  /** The groups the topology's properties select for a rank. */
  function TpGroupIndex(s: Shape, rank: nat): nat { PpRank(s, rank) * s.cp + CpRank(s, rank) }
  function PpGroupIndex(s: Shape, rank: nat): nat { TpRank(s, rank) * s.cp + CpRank(s, rank) }
  function CpGroupIndex(s: Shape, rank: nat): nat { PpRank(s, rank) * s.tp + TpRank(s, rank) }

  /** `groups[index(r)][place(r)]` is the one place of rank `r`. */
  ghost predicate Addressed(groups: seq<seq<int>>, n: int, index: nat -> nat, place: nat -> nat) {
    && (forall r: nat | r < n :: Place(groups, index(r), place(r)) && groups[index(r)][place(r)] == r)
    && forall g, k | Place(groups, g, k) :: AddressOf(groups[g][k], n, index, place, g, k)
  }

  ghost predicate AddressOf(r: int, n: int, index: nat -> nat, place: nat -> nat, g: int, k: int) {
    0 <= r < n && index(r) == g && place(r) == k
  }

  lemma AddressedPartitions(groups: seq<seq<int>>, n: int, index: nat -> nat, place: nat -> nat)
    requires Addressed(groups, n, index, place)
    ensures Partitions(groups, n)
  {
    forall g, k | Place(groups, g, k) ensures 0 <= groups[g][k] < n {
      assert AddressOf(groups[g][k], n, index, place, g, k);
    }
    forall r | 0 <= r < n ensures Occurs(groups, r) { assert Place(groups, index(r), place(r)); }
    forall g, k, h, l | Place(groups, g, k) && Place(groups, h, l) && groups[g][k] == groups[h][l]
      ensures g == h && k == l
    {
      assert AddressOf(groups[g][k], n, index, place, g, k);
      assert AddressOf(groups[h][l], n, index, place, h, l);
    }
  }

  /** The group each property selects holds the rank at the rank's own coordinate. */
  lemma SelectedTpGroup(s: Shape, rank: nat)
    requires rank < s.World()
    ensures var g, k := TpGroupIndex(s, rank), TpRank(s, rank); Place(TpGroups(s), g, k) && TpGroups(s)[g][k] == rank
  {
    RankOfCoordinates(s, rank);
    InBlock(PpRank(s, rank), s.pp, s.cp, CpRank(s, rank));
    DigitsDecode(PpRank(s, rank), CpRank(s, rank), s.cp);
  }

  lemma SelectedPpGroup(s: Shape, rank: nat)
    requires rank < s.World()
    ensures var g, k := PpGroupIndex(s, rank), PpRank(s, rank); Place(PpGroups(s), g, k) && PpGroups(s)[g][k] == rank
  {
    RankOfCoordinates(s, rank);
    InBlock(TpRank(s, rank), s.tp, s.cp, CpRank(s, rank));
  }

  lemma SelectedCpGroup(s: Shape, rank: nat)
    requires rank < s.World()
    ensures var g, k := CpGroupIndex(s, rank), CpRank(s, rank); Place(CpGroups(s), g, k) && CpGroups(s)[g][k] == rank
  {
    RankOfCoordinates(s, rank);
    InBlock(PpRank(s, rank), s.pp, s.tp, TpRank(s, rank));
    DigitsDecode(PpRank(s, rank), TpRank(s, rank), s.tp);
  }

  /** Tensor groups: addressed by stage and context coordinate, then by tensor coordinate. */
  lemma TpPartitions(s: Shape)
    ensures Addressed(TpGroups(s), s.World(), r => TpGroupIndex(s, r), r => TpRank(s, r))
    ensures Partitions(TpGroups(s), s.World())
  {
    var index, place := (r: nat) => TpGroupIndex(s, r), (r: nat) => TpRank(s, r);
    forall r: nat | r < s.World()
      ensures Place(TpGroups(s), index(r), place(r)) && TpGroups(s)[index(r)][place(r)] == r
    {
      SelectedTpGroup(s, r);
    }
    forall g, k | Place(TpGroups(s), g, k) ensures AddressOf(TpGroups(s)[g][k], s.World(), index, place, g, k) {
      TpPlaceCoordinates(s, g, k);
      QuotientBounds(g, s.cp);
    }
    AddressedPartitions(TpGroups(s), s.World(), index, place);
  }

  lemma PpPartitions(s: Shape)
    ensures Addressed(PpGroups(s), s.World(), r => PpGroupIndex(s, r), r => PpRank(s, r))
    ensures Partitions(PpGroups(s), s.World())
  {
    var index, place := (r: nat) => PpGroupIndex(s, r), (r: nat) => PpRank(s, r);
    forall r: nat | r < s.World()
      ensures Place(PpGroups(s), index(r), place(r)) && PpGroups(s)[index(r)][place(r)] == r
    {
      SelectedPpGroup(s, r);
    }
    forall g, k | Place(PpGroups(s), g, k) ensures AddressOf(PpGroups(s)[g][k], s.World(), index, place, g, k) {
      PpPlaceCoordinates(s, g, k);
      QuotientBounds(g, s.cp);
    }
    AddressedPartitions(PpGroups(s), s.World(), index, place);
  }

  lemma CpPartitions(s: Shape)
    ensures Addressed(CpGroups(s), s.World(), r => CpGroupIndex(s, r), r => CpRank(s, r))
    ensures Partitions(CpGroups(s), s.World())
  {
    var index, place := (r: nat) => CpGroupIndex(s, r), (r: nat) => CpRank(s, r);
    forall r: nat | r < s.World()
      ensures Place(CpGroups(s), index(r), place(r)) && CpGroups(s)[index(r)][place(r)] == r
    {
      SelectedCpGroup(s, r);
    }
    forall g, k | Place(CpGroups(s), g, k) ensures AddressOf(CpGroups(s)[g][k], s.World(), index, place, g, k) {
      CpPlaceCoordinates(s, g, k);
      QuotientBounds(g, s.tp);
    }
    AddressedPartitions(CpGroups(s), s.World(), index, place);
  }

  /** A tensor group holds exactly the ranks of the same stage and context coordinate. */
  lemma TpGroupMembers(s: Shape, rank: nat, x: int)
    requires rank < s.World()
    ensures TpGroupIndex(s, rank) < |TpGroups(s)|
    ensures x in TpGroups(s)[TpGroupIndex(s, rank)] <==>
              0 <= x < s.World() && PpRank(s, x) == PpRank(s, rank) && CpRank(s, x) == CpRank(s, rank)
  {
    SelectedTpGroup(s, rank);
    var g := TpGroupIndex(s, rank);
    TpPlaceCoordinates(s, g, TpRank(s, rank));
    if x in TpGroups(s)[g] {
      var k :| 0 <= k < |TpGroups(s)[g]| && TpGroups(s)[g][k] == x;
      TpPlaceCoordinates(s, g, k);
    }
    if 0 <= x < s.World() && PpRank(s, x) == PpRank(s, rank) && CpRank(s, x) == CpRank(s, rank) {
      SelectedTpGroup(s, x);
    }
  }

  /** A context group holds exactly the ranks of the same stage and tensor coordinate. */
  lemma CpGroupMembers(s: Shape, rank: nat, x: int)
    requires rank < s.World()
    ensures CpGroupIndex(s, rank) < |CpGroups(s)|
    ensures x in CpGroups(s)[CpGroupIndex(s, rank)] <==>
              0 <= x < s.World() && PpRank(s, x) == PpRank(s, rank) && TpRank(s, x) == TpRank(s, rank)
  {
    SelectedCpGroup(s, rank);
    var g := CpGroupIndex(s, rank);
    CpPlaceCoordinates(s, g, CpRank(s, rank));
    if x in CpGroups(s)[g] {
      var k :| 0 <= k < |CpGroups(s)[g]| && CpGroups(s)[g][k] == x;
      CpPlaceCoordinates(s, g, k);
    }
    if 0 <= x < s.World() && PpRank(s, x) == PpRank(s, rank) && TpRank(s, x) == TpRank(s, rank) {
      SelectedCpGroup(s, x);
    }
  }

  // ---------------------------------------------------------------------------
  // Neighbours
  // ---------------------------------------------------------------------------

  function PrevPpRank(s: Shape, rank: nat): int {
    var p := rank - s.tp * s.cp;
    if p < 0 then p + s.World() else p
  }

  function NextPpRank(s: Shape, rank: nat): int {
    var p := rank + s.tp * s.cp;
    if p >= s.World() then p - s.World() else p
  }

  function PrevCpRank(s: Shape, rank: nat): int {
    if CpRank(s, rank) == 0 then rank + s.cp - 1 else rank - 1
  }

  function NextCpRank(s: Shape, rank: nat): int {
    if CpRank(s, rank) == s.cp - 1 then rank - s.cp + 1 else rank + 1
  }

  /** The successor of `i` among `n` numbers in a circle. */
  function After(i: nat, n: Positive): nat { if i + 1 >= n then 0 else i + 1 }
  function Before(i: nat, n: Positive): nat { if i == 0 then n - 1 else i - 1 }

  lemma PpNeighbours(s: Shape, p: nat, t: nat, c: nat)
    requires InShape(s, p, t, c)
    ensures NextPpRank(s, RankAt(s, p, t, c)) == RankAt(s, After(p, s.pp), t, c)
    ensures PrevPpRank(s, RankAt(s, p, t, c)) == RankAt(s, Before(p, s.pp), t, c)
  {
    var stage, i := s.tp * s.cp, t * s.cp + c;
    InBlock(t, s.tp, s.cp, c);
    assert (p + 1) * stage == p * stage + stage;
    assert s.pp * stage == (s.pp - 1) * stage + stage;
    if p + 1 < s.pp { MulMonotone(p + 2, s.pp, stage); assert (p + 2) * stage == p * stage + 2 * stage; }
    if p > 0 { MulMonotone(1, p, stage); assert (p - 1) * stage == p * stage - stage; }
  }

  lemma CpNeighbours(s: Shape, p: nat, t: nat, c: nat)
    requires InShape(s, p, t, c)
    ensures NextCpRank(s, RankAt(s, p, t, c)) == RankAt(s, p, t, After(c, s.cp))
    ensures PrevCpRank(s, RankAt(s, p, t, c)) == RankAt(s, p, t, Before(c, s.cp))
  {
    CoordinatesOfRank(s, p, t, c);
  }

  /** Next and previous undo each other, on every rank and in both directions. */
  lemma NeighboursInverse(s: Shape, rank: nat)
    requires rank < s.World()
    ensures 0 <= NextPpRank(s, rank) < s.World() && PrevPpRank(s, NextPpRank(s, rank)) == rank
    ensures 0 <= PrevPpRank(s, rank) < s.World() && NextPpRank(s, PrevPpRank(s, rank)) == rank
    ensures 0 <= NextCpRank(s, rank) < s.World() && PrevCpRank(s, NextCpRank(s, rank)) == rank
    ensures 0 <= PrevCpRank(s, rank) < s.World() && NextCpRank(s, PrevCpRank(s, rank)) == rank
  {
    RankOfCoordinates(s, rank);
    var p, t, c := PpRank(s, rank), TpRank(s, rank), CpRank(s, rank);
    PpNeighbours(s, p, t, c);
    PpNeighbours(s, After(p, s.pp), t, c);
    PpNeighbours(s, Before(p, s.pp), t, c);
    CpNeighbours(s, p, t, c);
    CpNeighbours(s, p, t, After(c, s.cp));
    CpNeighbours(s, p, t, Before(c, s.cp));
    CoordinatesOfRank(s, After(p, s.pp), t, c);
    CoordinatesOfRank(s, Before(p, s.pp), t, c);
    CoordinatesOfRank(s, p, t, After(c, s.cp));
    CoordinatesOfRank(s, p, t, Before(c, s.cp));
  }

  /** Following the next rank `k` times. */
  function NextPpTimes(s: Shape, rank: nat, k: nat): int
    requires rank < s.World()
  {
    if k == 0 then rank
    else
      var r := NextPpTimes(s, rank, k - 1);
      if 0 <= r < s.World() then NextPpRank(s, r) else -1
  }

  function NextCpTimes(s: Shape, rank: nat, k: nat): int
    requires rank < s.World()
  {
    if k == 0 then rank
    else
      var r := NextCpTimes(s, rank, k - 1);
      if 0 <= r < s.World() then NextCpRank(s, r) else -1
  }

  lemma AfterModulo(i: nat, n: Positive)
    ensures After(i % n, n) == (i + 1) % n
  {
    QuotientBounds(i, n);
    if i % n + 1 < n {
      DigitsDecode(i / n, i % n + 1, n);
    } else {
      assert i + 1 == (i / n + 1) * n + 0;
      DigitsDecode(i / n + 1, 0, n);
    }
  }

  lemma {:induction false} PpWalk(s: Shape, p: nat, t: nat, c: nat, k: nat)
    requires InShape(s, p, t, c) && RankAt(s, p, t, c) < s.World()
    ensures NextPpTimes(s, RankAt(s, p, t, c), k) == RankAt(s, (p + k) % s.pp, t, c)
  {
    if k == 0 {
      DigitsDecode(0, p, s.pp);
    } else {
      PpWalk(s, p, t, c, k - 1);
      var at := (p + k - 1) % s.pp;
      CoordinatesOfRank(s, at, t, c);
      PpNeighbours(s, at, t, c);
      AfterModulo(p + k - 1, s.pp);
    }
  }

  lemma {:induction false} CpWalk(s: Shape, p: nat, t: nat, c: nat, k: nat)
    requires InShape(s, p, t, c) && RankAt(s, p, t, c) < s.World()
    ensures NextCpTimes(s, RankAt(s, p, t, c), k) == RankAt(s, p, t, (c + k) % s.cp)
  {
    if k == 0 {
      DigitsDecode(0, c, s.cp);
    } else {
      CpWalk(s, p, t, c, k - 1);
      var at := (c + k - 1) % s.cp;
      CoordinatesOfRank(s, p, t, at);
      CpNeighbours(s, p, t, at);
      AfterModulo(c + k - 1, s.cp);
    }
  }

  /** Steps needed from coordinate `from` to coordinate `to` around a circle of `n`. */
  lemma AroundTheCircle(from: nat, to: nat, n: Positive) returns (k: nat)
    requires from < n && to < n
    ensures (from + k) % n == to
  {
    if from <= to {
      k := to - from;
      DigitsDecode(0, to, n);
    } else {
      k := n - from + to;
      DigitsDecode(1, to, n);
    }
  }

  /** Following the next pipeline rank visits exactly the rank's pipeline group. */
  lemma PpOrbitIsGroup(s: Shape, rank: nat, x: int)
    requires rank < s.World()
    ensures PpGroupIndex(s, rank) < |PpGroups(s)|
    ensures x in PpGroups(s)[PpGroupIndex(s, rank)] <==> exists k: nat :: NextPpTimes(s, rank, k) == x
  {
    RankOfCoordinates(s, rank);
    SelectedPpGroup(s, rank);
    var p, t, c := PpRank(s, rank), TpRank(s, rank), CpRank(s, rank);
    var group := PpGroups(s)[PpGroupIndex(s, rank)];
    if x in group {
      var q :| 0 <= q < s.pp && group[q] == x;
      var k := AroundTheCircle(p, q, s.pp);
      PpWalk(s, p, t, c, k);
    }
    forall k: nat | NextPpTimes(s, rank, k) == x ensures x in group {
      PpWalk(s, p, t, c, k);
      assert group[(p + k) % s.pp] == x;
    }
  }

  /** Following the next context rank visits exactly the rank's context group. */
  lemma CpOrbitIsGroup(s: Shape, rank: nat, x: int)
    requires rank < s.World()
    ensures CpGroupIndex(s, rank) < |CpGroups(s)|
    ensures x in CpGroups(s)[CpGroupIndex(s, rank)] <==> exists k: nat :: NextCpTimes(s, rank, k) == x
  {
    RankOfCoordinates(s, rank);
    SelectedCpGroup(s, rank);
    var p, t, c := PpRank(s, rank), TpRank(s, rank), CpRank(s, rank);
    DigitsDecode(p, t, s.tp);
    var group := CpGroups(s)[CpGroupIndex(s, rank)];
    if x in group {
      var q :| 0 <= q < s.cp && group[q] == x;
      var k := AroundTheCircle(c, q, s.cp);
      CpWalk(s, p, t, c, k);
    }
    forall k: nat | NextCpTimes(s, rank, k) == x ensures x in group {
      CpWalk(s, p, t, c, k);
      assert group[(c + k) % s.cp] == x;
    }
  }

  // ---------------------------------------------------------------------------
  // Building the groups
  // ---------------------------------------------------------------------------

  lemma PpRange(s: Shape, i: nat)
    requires i < s.tp * s.cp
    ensures PyRange(i, s.World(), s.tp * s.cp) == PpGroup(s, i)
  {
    var stage := s.tp * s.cp;
    assert s.pp * stage == (s.pp - 1) * stage + stage;
    RangeIsSteps(i, s.World(), stage, s.pp);
  }

  lemma CpRange(s: Shape, i: nat, j: nat)
    ensures PyRange(i * s.tp * s.cp + j * s.cp, i * s.tp * s.cp + (j + 1) * s.cp, 1) == CpGroup(s, i, j)
  {
    assert i * s.tp * s.cp == i * (s.tp * s.cp);
    assert (j + 1) * s.cp == j * s.cp + s.cp;
    RangeIsSteps(i * s.tp * s.cp + j * s.cp, i * s.tp * s.cp + (j + 1) * s.cp, 1, s.cp);
  }

  lemma TpRange(s: Shape, i: nat, j: nat)
    ensures PyRange(i * s.tp * s.cp + j, (i + 1) * s.tp * s.cp + j, s.cp) == TpGroup(s, i, j)
  {
    assert i * s.tp * s.cp == i * (s.tp * s.cp);
    assert (i + 1) * s.tp * s.cp == i * (s.tp * s.cp) + s.tp * s.cp;
    assert s.tp * s.cp == (s.tp - 1) * s.cp + s.cp;
    RangeIsSteps(i * s.tp * s.cp + j, (i + 1) * s.tp * s.cp + j, s.cp, s.tp);
  }

  /** The topology object with its group lists. */
  class Topology {
    const shape: Shape
    var ppGroups: seq<seq<int>>
    var cpGroups: seq<seq<int>>
    var tpGroups: seq<seq<int>>

    constructor (shape: Shape)
      ensures this.shape == shape
      ensures ppGroups == PpGroups(shape) && cpGroups == CpGroups(shape) && tpGroups == TpGroups(shape)
    {
      this.shape := shape;
      ppGroups, cpGroups, tpGroups := [], [], [];
      new;
      InitPpGroups();
      InitCpGroups();
      InitTpGroups();
    }

    method InitPpGroups()
      requires ppGroups == []
      modifies this`ppGroups
      ensures ppGroups == PpGroups(shape)
    {
      var stage := shape.tp * shape.cp;
      for i := 0 to stage
        invariant |ppGroups| == i && forall g | 0 <= g < i :: ppGroups[g] == PpGroup(shape, g)
      {
        PpRange(shape, i);
        ppGroups := ppGroups + [PyRange(i, shape.World(), stage)];
      }
    }

    method InitCpGroups()
      requires cpGroups == []
      modifies this`cpGroups
      ensures cpGroups == CpGroups(shape)
    {
      for i := 0 to shape.pp
        invariant |cpGroups| == i * shape.tp && FirstCpGroups(shape, cpGroups)
      {
        for j := 0 to shape.tp
          invariant |cpGroups| == i * shape.tp + j && FirstCpGroups(shape, cpGroups)
        {
          CpRange(shape, i, j);
          var group := PyRange(i * shape.tp * shape.cp + j * shape.cp, i * shape.tp * shape.cp + (j + 1) * shape.cp, 1);
          NextCpGroup(shape, cpGroups, i, j);
          cpGroups := cpGroups + [group];
        }
      }
    }

    method InitTpGroups()
      requires tpGroups == []
      modifies this`tpGroups
      ensures tpGroups == TpGroups(shape)
    {
      for i := 0 to shape.pp
        invariant |tpGroups| == i * shape.cp && FirstTpGroups(shape, tpGroups)
      {
        for j := 0 to shape.cp
          invariant |tpGroups| == i * shape.cp + j && FirstTpGroups(shape, tpGroups)
        {
          TpRange(shape, i, j);
          var group := PyRange(i * shape.tp * shape.cp + j, (i + 1) * shape.tp * shape.cp + j, shape.cp);
          NextTpGroup(shape, tpGroups, i, j);
          tpGroups := tpGroups + [group];
        }
      }
    }
  }

  /** These are the first of the context groups. */
  ghost predicate FirstCpGroups(s: Shape, groups: seq<seq<int>>) {
    forall g | 0 <= g < |groups| :: groups[g] == CpGroup(s, g / s.tp, g % s.tp)
  }

  lemma NextCpGroup(s: Shape, groups: seq<seq<int>>, i: nat, j: nat)
    requires FirstCpGroups(s, groups) && |groups| == i * s.tp + j && j < s.tp
    ensures FirstCpGroups(s, groups + [CpGroup(s, i, j)])
  {
    DigitsDecode(i, j, s.tp);
  }

  ghost predicate FirstTpGroups(s: Shape, groups: seq<seq<int>>) {
    forall g | 0 <= g < |groups| :: groups[g] == TpGroup(s, g / s.cp, g % s.cp)
  }

  lemma NextTpGroup(s: Shape, groups: seq<seq<int>>, i: nat, j: nat)
    requires FirstTpGroups(s, groups) && |groups| == i * s.cp + j && j < s.cp
    ensures FirstTpGroups(s, groups + [TpGroup(s, i, j)])
  {
    DigitsDecode(i, j, s.cp);
  }
}
