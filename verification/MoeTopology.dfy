/**
 Mixture-of-experts coordinates and groups of tensorrt_llm/mapping.py without context parallelism
 and without weight sharing across data-parallel workers. Each pipeline stage of
 moeTp * cluster * ep ranks is split first into tensor slices, then into clusters, then into
 expert-parallel places; a cluster size above one excludes expert parallelism.
 */
module MoeTopology {
  import opened MixedRadix
  import opened RankTopology

  datatype MoeShape = MoeShape(pp: Positive, moeTp: Positive, cluster: Positive, ep: Positive) {
    /** Ranks per tensor slice. */
    function Unit(): Positive { PositiveProduct(cluster, ep); cluster * ep }

    /** Ranks per stage. */
    function Tp(): Positive { PositiveProduct(moeTp, Unit()); moeTp * Unit() }

    /** The plain topology these ranks form. */
    function Plain(): Shape { Shape(Tp(), pp, 1) }

    /** The stage as tensor slices of single ranks, and as expert-parallel runs. */
    function Slices(): Shape { Shape(moeTp, pp, Unit()) }
    function Runs(): Shape { PositiveProduct(moeTp, cluster); Shape(moeTp * cluster, pp, ep) }

    predicate Valid() { cluster > 1 ==> ep == 1 }
  }

  lemma PositiveProduct(a: Positive, b: Positive)
    ensures a * b > 0
  {
  }

  // ---------------------------------------------------------------------------
  // Coordinates
  // ---------------------------------------------------------------------------

  function MoeTpRank(m: MoeShape, rank: nat): nat { TpRank(m.Plain(), rank) / (m.ep * m.cluster) }
  function MoeClusterRank(m: MoeShape, rank: nat): nat { TpRank(m.Plain(), rank) % m.cluster }
  function MoeEpRank(m: MoeShape, rank: nat): nat { TpRank(m.Plain(), rank) % m.ep }

  /** The rank's place in its tensor slice. */
  function SlicePlace(m: MoeShape, rank: nat): nat { MoeClusterRank(m, rank) * m.ep + MoeEpRank(m, rank) }

  lemma RunsSameStage(m: MoeShape)
    ensures m.Runs().tp * m.Runs().cp == m.Tp() && m.Runs().World() == m.Plain().World() == m.Slices().World()
  {
    assert m.moeTp * m.cluster * m.ep == m.moeTp * (m.cluster * m.ep);
  }

  /** The coordinates, seen in the stage split into slices. */
  lemma SliceCoordinates(m: MoeShape, rank: nat)
    requires m.Valid() && rank < m.Plain().World()
    ensures PpRank(m.Slices(), rank) == PpRank(m.Plain(), rank)
    ensures TpRank(m.Slices(), rank) == MoeTpRank(m, rank)
    ensures CpRank(m.Slices(), rank) == SlicePlace(m, rank)
  {
    var stage, unit := m.Tp(), m.Unit();
    assert m.Plain().tp * m.Plain().cp == stage;
    assert m.ep * m.cluster == unit;
    QuotientBounds(rank, stage);
    StageModulo(rank / stage, m.moeTp, unit, rank % stage);
    assert rank % unit == rank % stage % unit;
    if m.cluster == 1 {
      assert unit == m.ep;
    } else {
      assert unit == m.cluster && MoeEpRank(m, rank) == 0;
    }
  }

  /** The place in the slice is made up of the two coordinates if and only if one of the sizes is one. */
  lemma SlicePlaceExactly(m: MoeShape)
    ensures (forall rank: nat | rank < m.Plain().World() :: CpRank(m.Slices(), rank) == SlicePlace(m, rank))
            <==> m.cluster == 1 || m.ep == 1
  {
    if m.cluster == 1 || m.ep == 1 {
      forall rank: nat | rank < m.Plain().World() ensures CpRank(m.Slices(), rank) == SlicePlace(m, rank) {
        SliceCoordinates(m, rank);
      }
    } else {
      SecondRank(m);
    }
  }

  lemma OneIsItsOwnDigit(k: nat)
    requires k > 1
    ensures 1 % k == 1
  {
    DigitsDecode(0, 1, k);
  }

  lemma SecondRank(m: MoeShape)
    requires m.cluster > 1 && m.ep > 1
    ensures 1 < m.Plain().World() && CpRank(m.Slices(), 1) == 1 && SlicePlace(m, 1) == m.ep + 1
  {
    var unit, stage := m.Unit(), m.Tp();
    assert 1 < unit by { MulMonotone(1, m.cluster, m.ep); }
    assert unit <= stage by { MulMonotone(1, m.moeTp, unit); }
    assert stage <= m.Plain().World() by {
      assert m.Plain().tp * m.Plain().cp == stage;
      MulMonotone(1, m.pp, stage);
    }
    OneIsItsOwnDigit(unit);
    assert TpRank(m.Plain(), 1) == 1 by {
      assert stage * 1 == stage;
      OneIsItsOwnDigit(stage);
    }
    OneIsItsOwnDigit(m.cluster);
    OneIsItsOwnDigit(m.ep);
  }

  /** The coordinates, seen in the stage split into expert-parallel runs. */
  lemma RunCoordinates(m: MoeShape, rank: nat)
    requires m.Valid() && rank < m.Plain().World()
    ensures PpRank(m.Runs(), rank) == PpRank(m.Plain(), rank)
    ensures TpRank(m.Runs(), rank) == MoeTpRank(m, rank) * m.cluster + MoeClusterRank(m, rank)
    ensures CpRank(m.Runs(), rank) == MoeEpRank(m, rank)
  {
    RunsSameStage(m);
    var stage := m.Tp();
    var inStage := rank % stage;
    assert m.Plain().tp * m.Plain().cp == stage;
    QuotientBounds(rank, stage);
    StageModulo(rank / stage, m.moeTp * m.cluster, m.ep, inStage);
    if m.cluster == 1 {
      assert m.ep * m.cluster == m.ep;
      assert MoeTpRank(m, rank) * m.cluster == MoeTpRank(m, rank);
    } else {
      assert m.ep * m.cluster == m.cluster;
      QuotientBounds(inStage, m.cluster);
    }
  }

  ghost predicate InMoeShape(m: MoeShape, p: nat, t: nat, c: nat, e: nat) {
    p < m.pp && t < m.moeTp && c < m.cluster && e < m.ep
  }

  function MoeRankAt(m: MoeShape, p: nat, t: nat, c: nat, e: nat): nat {
    p * m.Tp() + t * (m.cluster * m.ep) + c * m.ep + e
  }

  /** The four coordinates of a rank are in range and decode back to it. */
  lemma MoeRankOfCoordinates(m: MoeShape, rank: nat)
    requires m.Valid() && rank < m.Plain().World()
    ensures var p, t, c, e := PpRank(m.Plain(), rank), MoeTpRank(m, rank), MoeClusterRank(m, rank), MoeEpRank(m, rank);
            InMoeShape(m, p, t, c, e) && MoeRankAt(m, p, t, c, e) == rank
  {
    RunsSameStage(m);
    SliceCoordinates(m, rank);
    RankOfCoordinates(m.Slices(), rank);
  }

  /** Every combination of coordinates belongs to one rank, which has these coordinates. */
  lemma MoeCoordinatesOfRank(m: MoeShape, p: nat, t: nat, c: nat, e: nat)
    requires m.Valid() && InMoeShape(m, p, t, c, e)
    ensures var rank := MoeRankAt(m, p, t, c, e);
            && rank < m.Plain().World() && PpRank(m.Plain(), rank) == p
            && MoeTpRank(m, rank) == t && MoeClusterRank(m, rank) == c && MoeEpRank(m, rank) == e
  {
    RunsSameStage(m);
    InBlock(c, m.cluster, m.ep, e);
    var place := c * m.ep + e;
    CoordinatesOfRank(m.Slices(), p, t, place);
    var rank := MoeRankAt(m, p, t, c, e);
    assert rank == RankAt(m.Slices(), p, t, place);
    SliceCoordinates(m, rank);
    MoeRankOfCoordinates(m, rank);
    DigitsUnique(c, e, MoeClusterRank(m, rank), MoeEpRank(m, rank), m.ep);
  }

  // ---------------------------------------------------------------------------
  // Groups
  // ---------------------------------------------------------------------------

  /** Same place in every slice; all places of a slice; all places of a run. */
  function MoeTpGroups(m: MoeShape): seq<seq<int>> { TpGroups(m.Slices()) }
  function MoeClusterGroups(m: MoeShape): seq<seq<int>> { CpGroups(m.Slices()) }
  function MoeEpGroups(m: MoeShape): seq<seq<int>> { CpGroups(m.Runs()) }

  /** The groups that the topology's properties select. */
  function MoeTpGroupIndex(m: MoeShape, rank: nat): nat {
    PpRank(m.Plain(), rank) * m.cluster * m.ep + MoeClusterRank(m, rank) * m.ep + MoeEpRank(m, rank)
  }

  function MoeClusterGroupIndex(m: MoeShape, rank: nat): nat {
    PpRank(m.Plain(), rank) * m.moeTp + MoeTpRank(m, rank)
  }

  function MoeEpGroupIndex(m: MoeShape, rank: nat): nat {
    PpRank(m.Plain(), rank) * m.moeTp * m.cluster + MoeTpRank(m, rank) * m.cluster + MoeClusterRank(m, rank)
  }

  /** Each family of groups holds every rank exactly once. */
  lemma MoeGroupsPartition(m: MoeShape)
    ensures Partitions(MoeTpGroups(m), m.Plain().World())
    ensures Partitions(MoeClusterGroups(m), m.Plain().World())
    ensures Partitions(MoeEpGroups(m), m.Plain().World())
  {
    RunsSameStage(m);
    TpPartitions(m.Slices());
    CpPartitions(m.Slices());
    CpPartitions(m.Runs());
  }

  /** The selected groups hold the rank at its own coordinate. */
  lemma SelectedMoeGroups(m: MoeShape, rank: nat)
    requires m.Valid() && rank < m.Plain().World()
    ensures var g, k := MoeTpGroupIndex(m, rank), MoeTpRank(m, rank);
            Place(MoeTpGroups(m), g, k) && MoeTpGroups(m)[g][k] == rank
    ensures var g, k := MoeClusterGroupIndex(m, rank), SlicePlace(m, rank);
            Place(MoeClusterGroups(m), g, k) && MoeClusterGroups(m)[g][k] == rank
    ensures var g, k := MoeEpGroupIndex(m, rank), MoeEpRank(m, rank);
            Place(MoeEpGroups(m), g, k) && MoeEpGroups(m)[g][k] == rank
  {
    RunsSameStage(m);
    SliceCoordinates(m, rank);
    SelectedTpGroup(m.Slices(), rank);
    SelectedCpGroup(m.Slices(), rank);
    MoeIndexes(m, rank);
    RunCoordinates(m, rank);
    SelectedCpGroup(m.Runs(), rank);
  }

  lemma MoeIndexes(m: MoeShape, rank: nat)
    requires m.Valid() && rank < m.Plain().World()
    ensures MoeTpGroupIndex(m, rank) == TpGroupIndex(m.Slices(), rank)
    ensures MoeClusterGroupIndex(m, rank) == CpGroupIndex(m.Slices(), rank)
    ensures MoeEpGroupIndex(m, rank) == CpGroupIndex(m.Runs(), rank)
  {
    SliceCoordinates(m, rank);
    RunCoordinates(m, rank);
    var p := PpRank(m.Plain(), rank);
    assert p * m.cluster * m.ep == p * (m.cluster * m.ep);
    assert p * m.moeTp * m.cluster == p * (m.moeTp * m.cluster);
  }

  /** A rank's tensor group and cluster group have only that rank in common. */
  lemma TpAndClusterMeetOnce(m: MoeShape, rank: nat, x: int)
    requires m.Valid() && rank < m.Plain().World()
    ensures MoeTpGroupIndex(m, rank) < |MoeTpGroups(m)| && MoeClusterGroupIndex(m, rank) < |MoeClusterGroups(m)|
    ensures x in MoeTpGroups(m)[MoeTpGroupIndex(m, rank)]
            && x in MoeClusterGroups(m)[MoeClusterGroupIndex(m, rank)] <==>
              x == rank
  {
    SelectedMoeGroups(m, rank);
    RunsSameStage(m);
    MoeIndexes(m, rank);
    TpGroupMembers(m.Slices(), rank, x);
    CpGroupMembers(m.Slices(), rank, x);
    RankOfCoordinates(m.Slices(), rank);
    if 0 <= x < m.Plain().World() { RankOfCoordinates(m.Slices(), x); }
  }

  // ---------------------------------------------------------------------------
  // Building the groups
  // ---------------------------------------------------------------------------

  lemma MoeTpRange(m: MoeShape, i: nat, j: nat)
    requires j < m.cluster * m.ep
    ensures PyRange(i * m.Tp() + j, (i + 1) * m.Tp(), m.Unit()) == TpGroup(m.Slices(), i, j)
  {
    assert (i + 1) * m.Tp() == i * m.Tp() + m.Tp();
    assert m.Tp() == (m.moeTp - 1) * m.Unit() + m.Unit();
    RangeIsSteps(i * m.Tp() + j, (i + 1) * m.Tp(), m.Unit(), m.moeTp);
  }

  lemma MoeClusterRange(m: MoeShape, i: nat, j: nat)
    ensures PyRange(i * m.Tp() + j * m.cluster * m.ep, i * m.Tp() + (j + 1) * m.cluster * m.ep, 1) ==
              CpGroup(m.Slices(), i, j)
  {
    assert j * m.cluster * m.ep == j * m.Unit() && (j + 1) * m.cluster * m.ep == j * m.Unit() + m.Unit();
    RangeIsSteps(i * m.Tp() + j * m.Unit(), i * m.Tp() + j * m.Unit() + m.Unit(), 1, m.Unit());
  }

  lemma MoeEpRange(m: MoeShape, i: nat, j: nat, k: nat)
    ensures PyRange(i * m.Tp() + j * m.cluster * m.ep + k * m.ep,
                    i * m.Tp() + j * m.cluster * m.ep + (k + 1) * m.ep, 1) ==
              CpGroup(m.Runs(), i, j * m.cluster + k)
  {
    var start := i * m.Tp() + j * m.cluster * m.ep + k * m.ep;
    assert (k + 1) * m.ep == k * m.ep + m.ep;
    assert (j * m.cluster + k) * m.ep == j * m.cluster * m.ep + k * m.ep;
    RunsSameStage(m);
    RangeIsSteps(start, start + m.ep, 1, m.ep);
  }

  /** The expert-parallel part of the topology object. */
  class MoeGroups {
    const shape: MoeShape
    var moeTpGroups: seq<seq<int>>
    var moeClusterGroups: seq<seq<int>>
    var moeEpGroups: seq<seq<int>>

    constructor (shape: MoeShape)
      ensures this.shape == shape
      ensures moeTpGroups == MoeTpGroups(shape) && moeClusterGroups == MoeClusterGroups(shape)
              && moeEpGroups == MoeEpGroups(shape)
    {
      this.shape := shape;
      moeTpGroups, moeClusterGroups, moeEpGroups := [], [], [];
      new;
      InitMoeTpGroups();
      InitMoeClusterGroups();
      InitMoeEpGroups();
    }

    method InitMoeTpGroups()
      requires moeTpGroups == []
      modifies this`moeTpGroups
      ensures moeTpGroups == MoeTpGroups(shape)
    {
      var unit := shape.Unit();
      for i := 0 to shape.pp
        invariant |moeTpGroups| == i * unit && FirstTpGroups(shape.Slices(), moeTpGroups)
      {
        for j := 0 to unit
          invariant |moeTpGroups| == i * unit + j && FirstTpGroups(shape.Slices(), moeTpGroups)
        {
          MoeTpRange(shape, i, j);
          var group := PyRange(i * shape.Tp() + j, (i + 1) * shape.Tp(), unit);
          NextTpGroup(shape.Slices(), moeTpGroups, i, j);
          moeTpGroups := moeTpGroups + [group];
        }
      }
    }

    method InitMoeClusterGroups()
      requires moeClusterGroups == []
      modifies this`moeClusterGroups
      ensures moeClusterGroups == MoeClusterGroups(shape)
    {
      for i := 0 to shape.pp
        invariant |moeClusterGroups| == i * shape.moeTp && FirstCpGroups(shape.Slices(), moeClusterGroups)
      {
        for j := 0 to shape.moeTp
          invariant |moeClusterGroups| == i * shape.moeTp + j && FirstCpGroups(shape.Slices(), moeClusterGroups)
        {
          MoeClusterRange(shape, i, j);
          var group := PyRange(i * shape.Tp() + j * shape.cluster * shape.ep,
                               i * shape.Tp() + (j + 1) * shape.cluster * shape.ep, 1);
          NextCpGroup(shape.Slices(), moeClusterGroups, i, j);
          moeClusterGroups := moeClusterGroups + [group];
        }
      }
    }

    method InitMoeEpGroups()
      requires moeEpGroups == []
      modifies this`moeEpGroups
      ensures moeEpGroups == MoeEpGroups(shape)
    {
      for i := 0 to shape.pp
        invariant |moeEpGroups| == i * shape.Runs().tp && FirstCpGroups(shape.Runs(), moeEpGroups)
      {
        for j := 0 to shape.moeTp
          invariant |moeEpGroups| == i * shape.Runs().tp + j * shape.cluster && FirstCpGroups(shape.Runs(), moeEpGroups)
        {
          AddRuns(i, j);
        }
      }
    }

    /** The expert-parallel groups of one tensor slice. */
    method AddRuns(i: nat, j: nat)
      requires i < shape.pp && j < shape.moeTp
      requires |moeEpGroups| == i * shape.Runs().tp + j * shape.cluster && FirstCpGroups(shape.Runs(), moeEpGroups)
      modifies this`moeEpGroups
      ensures |moeEpGroups| == i * shape.Runs().tp + (j + 1) * shape.cluster && FirstCpGroups(shape.Runs(), moeEpGroups)
    {
      ghost var start := |moeEpGroups|;
      for k := 0 to shape.cluster
        invariant |moeEpGroups| == start + k && FirstCpGroups(shape.Runs(), moeEpGroups)
      {
        var group := PyRange(i * shape.Tp() + j * shape.cluster * shape.ep + k * shape.ep,
                             i * shape.Tp() + j * shape.cluster * shape.ep + (k + 1) * shape.ep, 1);
        NextRun(shape, moeEpGroups, i, j, k);
        moeEpGroups := moeEpGroups + [group];
      }
      assert (j + 1) * shape.cluster == j * shape.cluster + shape.cluster;
    }
  }

  lemma NextRun(m: MoeShape, groups: seq<seq<int>>, i: nat, j: nat, k: nat)
    requires i < m.pp && j < m.moeTp && k < m.cluster
    requires |groups| == i * m.Runs().tp + j * m.cluster + k && FirstCpGroups(m.Runs(), groups)
    ensures FirstCpGroups(m.Runs(), groups + [PyRange(i * m.Tp() + j * m.cluster * m.ep + k * m.ep,
                                                      i * m.Tp() + j * m.cluster * m.ep + (k + 1) * m.ep, 1)])
  {
    InBlock(j, m.moeTp, m.cluster, k);
    MoeEpRange(m, i, j, k);
    NextCpGroup(m.Runs(), groups, i, j * m.cluster + k);
  }
}
