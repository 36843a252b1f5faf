/**
 The mapping constructor of tensorrt_llm/mapping.py with its defaults and checks, and the folding of
 helix context-parallel ranks into tensor-parallel ranks.
 */
module HelixMapping {
  import opened Sequences
  import opened MixedRadix
  import opened RankTopology
  import MoeTopology

  datatype CpType = Ulysses | Ring | Helix

  /** The context-parallel configuration: no type given, a known type, or an unknown type name. */
  datatype CpConfig = Untyped | Typed(cpType: CpType) | UnknownType

  datatype Args = Args(
    worldSize: int, rank: int, gpusPerNode: int, cpSize: int, cpConfig: CpConfig, tpSize: int, ppSize: int,
    ppPartition: Option<seq<int>>, moeClusterSize: int, moeTpSize: int, moeEpSize: int,
    attnTpSize: int, attnCpSize: int,
    enableAttentionDp: bool, enableLmHeadTpInAdp: bool, dwdpSize: int, dwdpRank: int, helixRepurposedCpSize: int)

  /** The object's fields after construction: the arguments with all defaults filled in. */
  type Mapping = Args

  datatype Error =
    | BadDwdpSize | BadDwdpRank | BadCpType | ZeroDivision | UlyssesAttnCp | BadWorldSize
    | BadMoeSizes | BadAttnSizes | NoMoeWithCp | ClusterWithEp | LmHeadNeedsDp | BadRank | NotHelix

  datatype Result<+T> = Ok(value: T) | Err(error: Error)

  /** Division that rounds toward negative infinity. */
  function FloorDiv(a: int, b: int): int
    requires b != 0
  {
    if b > 0 then a / b else (-a) / (-b)
  }

  function TypeOf(config: CpConfig): CpType {
    if config.Typed? then config.cpType else Ulysses
  }

  /** The expert-parallel sizes with the automatic ones (-1) filled in. */
  function MoeSizes(a: Args): Result<(int, int, int)> {
    var cluster := if a.moeClusterSize == -1 then 1 else a.moeClusterSize;
    var world := if TypeOf(a.cpConfig).Ulysses? then a.tpSize else a.tpSize * a.cpSize;
    if a.dwdpSize > 1 then Ok((1, 1, 1))
    else if a.moeTpSize == -1 && a.moeEpSize == -1 then
      if cluster == 0 then Err(ZeroDivision) else Ok((FloorDiv(world, cluster), 1, cluster))
    else if a.moeTpSize == -1 then
      if a.moeEpSize * cluster == 0 then Err(ZeroDivision)
      else Ok((FloorDiv(world, a.moeEpSize * cluster), a.moeEpSize, cluster))
    else if a.moeEpSize == -1 then
      if a.moeTpSize * cluster == 0 then Err(ZeroDivision)
      else Ok((a.moeTpSize, FloorDiv(world, a.moeTpSize * cluster), cluster))
    else Ok((a.moeTpSize, a.moeEpSize, cluster))
  }

  /** The attention sizes with the automatic ones filled in. */
  function AttnSizes(a: Args): Result<(int, int)> {
    if a.attnTpSize == -1 && a.attnCpSize == -1 then
      if TypeOf(a.cpConfig).Ulysses? then Ok((a.tpSize * a.cpSize, 1)) else Ok((a.tpSize, a.cpSize))
    else if a.attnTpSize == -1 then
      if a.attnCpSize == 0 then Err(ZeroDivision) else Ok((FloorDiv(a.tpSize * a.cpSize, a.attnCpSize), a.attnCpSize))
    else if a.attnCpSize == -1 then
      if a.attnTpSize == 0 then Err(ZeroDivision) else Ok((a.attnTpSize, FloorDiv(a.tpSize * a.cpSize, a.attnTpSize)))
    else Ok((a.attnTpSize, a.attnCpSize))
  }

  /** The checks that come after the defaults, in the order they are made. */
  function Checks(a: Args, moe: (int, int, int), attn: (int, int)): Option<Error> {
    var cpType := TypeOf(a.cpConfig);
    var moeWorld := if cpType.Ulysses? then a.tpSize else a.tpSize * a.cpSize;
    if attn.1 != 1 && cpType.Ulysses? then Some(UlyssesAttnCp)
    else if a.tpSize * a.ppSize * a.cpSize != a.worldSize then Some(BadWorldSize)
    else if !(a.dwdpSize > 1) && moe.0 * moe.1 * moe.2 != moeWorld then Some(BadMoeSizes)
    else if attn.0 * attn.1 != a.tpSize * a.cpSize then Some(BadAttnSizes)
    else if moe.1 != 1 && a.cpSize > 1 && !cpType.Helix? then Some(NoMoeWithCp)
    else if moe.2 > 1 && moe.1 != 1 then Some(ClusterWithEp)
    else if a.enableLmHeadTpInAdp && !a.enableAttentionDp then Some(LmHeadNeedsDp)
    else if !a.enableAttentionDp && !(0 <= a.rank < a.worldSize) then Some(BadRank)
    else None
  }

  function Construct(a: Args): Result<Mapping> {
    if a.dwdpSize < 0 || a.dwdpSize == 1 then Err(BadDwdpSize)
    else if a.dwdpSize > 1 && !(0 <= a.dwdpRank < a.dwdpSize) then Err(BadDwdpRank)
    else if a.cpConfig.UnknownType? then Err(BadCpType)
    else
      match MoeSizes(a)
      case Err(e) => Err(e)
      case Ok(moe) =>
        match AttnSizes(a)
        case Err(e) => Err(e)
        case Ok(attn) =>
          match Checks(a, moe, attn)
          case Some(e) => Err(e)
          case None =>
            Ok(a.(moeTpSize := moe.0, moeEpSize := moe.1, moeClusterSize := moe.2,
                  attnTpSize := attn.0, attnCpSize := attn.1))
  }

  predicate HasCpHelix(m: Mapping) {
    m.cpSize > 1 && m.cpConfig == Typed(Helix)
  }

  /** The arguments of the folded mapping. */
  function Folded(m: Mapping): Args {
    Args(m.worldSize, m.rank, m.gpusPerNode, 1, Untyped, m.tpSize * m.cpSize, m.ppSize, m.ppPartition,
         m.moeClusterSize, m.moeTpSize, m.moeEpSize, -1, -1, m.enableAttentionDp, m.enableLmHeadTpInAdp,
         m.dwdpSize, m.dwdpRank, m.cpSize)
  }

  function RepurposeHelixCpToTp(m: Mapping): Result<Mapping> {
    if HasCpHelix(m) then Construct(Folded(m)) else Err(NotHelix)
  }

  // ---------------------------------------------------------------------------
  // What is constructed, and when
  // ---------------------------------------------------------------------------

  /** Dividing a product by one factor gives the other, whatever their signs. */
  lemma ExactFloorDiv(q: int, b: int)
    requires b != 0
    ensures FloorDiv(q * b, b) == q
  {
    if b > 0 {
      assert q * b == q * b + 0;
      EuclideanExact(q, b);
    } else {
      assert -(q * b) == q * (-b);
      EuclideanExact(q, -b);
    }
  }

  lemma EuclideanExact(q: int, b: Positive)
    ensures q * b / b == q
  {
    var d, r := q * b / b, q * b % b;
    assert q * b == d * b + r && 0 <= r < b;
    assert (q - d) * b == r;
    assert q - d >= 1 ==> (q - d) * b >= b;
    assert q - d <= -1 ==> (q - d) * b <= -1 * b;
  }

  lemma FloorDivExactly(x: int, b: int)
    requires b != 0
    ensures FloorDiv(x, b) * b == x <==> x % b == 0
  {
    var q := FloorDiv(x, b);
    if x % b == 0 {
      assert x == x / b * b;
      ExactFloorDiv(x / b, b);
    } else if q * b == x {
      ProductDivides(q, b);
      assert false;
    }
  }

  /** The quotient is rounded down, whatever the signs. */
  lemma FloorDivRounds(x: int, b: int)
    requires b != 0
    ensures b > 0 ==> FloorDiv(x, b) * b <= x < (FloorDiv(x, b) + 1) * b
    ensures b < 0 ==> FloorDiv(x, b) * b >= x > (FloorDiv(x, b) + 1) * b
  {
    var c, y := if b > 0 then b else -b, if b > 0 then x else -x;
    var q := y / c;
    assert y == q * c + y % c && 0 <= y % c < c;
    assert (q + 1) * c == q * c + c;
    assert b < 0 ==> q * b == -(q * c) && (q + 1) * b == -((q + 1) * c);
  }

  lemma ProductDivides(q: int, b: int)
    requires b != 0
    ensures q * b % b == 0
  {
    var d, r, n := q * b / b, q * b % b, if b > 0 then b else -b;
    assert q * b == d * b + r && 0 <= r < n;
    assert (q - d) * b == r;
    var k := if b > 0 then q - d else d - q;
    assert k * n == r;
    assert k >= 1 ==> k * n >= n;
    assert k <= -1 ==> k * n <= -1 * n;
  }

  /** The ranks that share a layer's experts. */
  function MoeWorld(a: Args): int {
    if a.cpConfig == Typed(Ring) || a.cpConfig == Typed(Helix) then a.tpSize * a.cpSize else a.tpSize
  }

  predicate IsUlysses(a: Args) { a.cpConfig == Untyped || a.cpConfig == Typed(Ulysses) }

  function Cluster(a: Args): int { if a.moeClusterSize == -1 then 1 else a.moeClusterSize }

  /** A size that is given stays as it is. */
  predicate KeepsSize(given: int, size: int) { given == -1 || size == given }

  /** The expert-parallel sizes multiply to the ranks; given sizes stay, and if none is given, tensor parallelism
      takes it all. An automatic size is a quotient, whose divisor is not zero. */
  predicate MoeSizesFit(a: Args, m: Mapping) {
    if a.dwdpSize > 1 then m.moeTpSize == 1 && m.moeEpSize == 1 && m.moeClusterSize == 1
    else
      && m.moeTpSize * m.moeEpSize * m.moeClusterSize == MoeWorld(a) && m.moeClusterSize == Cluster(a)
      && KeepsSize(a.moeTpSize, m.moeTpSize) && KeepsSize(a.moeEpSize, m.moeEpSize)
      && (a.moeTpSize == -1 && a.moeEpSize == -1 ==> m.moeEpSize == 1)
      && (a.moeTpSize == -1 ==> m.moeEpSize * m.moeClusterSize != 0)
      && (a.moeTpSize != -1 && a.moeEpSize == -1 ==> m.moeTpSize * m.moeClusterSize != 0)
  }

  /** The attention sizes likewise; if none is given they are the sizes of the mapping. Ulysses leaves the attention
      no context parallelism. */
  predicate AttnSizesFit(a: Args, m: Mapping) {
    && m.attnTpSize * m.attnCpSize == a.tpSize * a.cpSize
    && KeepsSize(a.attnTpSize, m.attnTpSize) && KeepsSize(a.attnCpSize, m.attnCpSize)
    && (IsUlysses(a) ==> m.attnCpSize == 1)
    && (a.attnTpSize == -1 && a.attnCpSize == -1 && !IsUlysses(a) ==>
          m.attnTpSize == a.tpSize && m.attnCpSize == a.cpSize)
    && (a.attnTpSize == -1 && a.attnCpSize != -1 ==> m.attnCpSize != 0)
    && (a.attnTpSize != -1 && a.attnCpSize == -1 ==> m.attnTpSize != 0)
  }

  /** What does not depend on the sizes that are filled in. */
  predicate ArgsFit(a: Args) {
    && (a.dwdpSize == 0 || (a.dwdpSize > 1 && 0 <= a.dwdpRank < a.dwdpSize))
    && a.cpConfig != UnknownType && a.tpSize * a.ppSize * a.cpSize == a.worldSize
    && (a.enableLmHeadTpInAdp ==> a.enableAttentionDp)
    && (a.enableAttentionDp || 0 <= a.rank < a.worldSize)
  }

  /** Expert parallelism excludes clusters, and context parallelism other than helix. */
  predicate ExpertsFit(a: Args, m: Mapping) {
    m.moeEpSize == 1 || (m.moeClusterSize <= 1 && (a.cpSize <= 1 || a.cpConfig == Typed(Helix)))
  }

  predicate Describes(a: Args, m: Mapping) {
    && m == a.(moeTpSize := m.moeTpSize, moeEpSize := m.moeEpSize, moeClusterSize := m.moeClusterSize,
               attnTpSize := m.attnTpSize, attnCpSize := m.attnCpSize)
    && ArgsFit(a) && MoeSizesFit(a, m) && AttnSizesFit(a, m) && ExpertsFit(a, m)
  }

  lemma MoeSizesExactly(a: Args, m: Mapping)
    requires a.cpConfig != UnknownType
    ensures MoeSizesFit(a, m) <==>
              && MoeSizes(a) == Ok((m.moeTpSize, m.moeEpSize, m.moeClusterSize))
              && (a.dwdpSize > 1 || m.moeTpSize * m.moeEpSize * m.moeClusterSize == MoeWorld(a))
  {
    var t, e, c := m.moeTpSize, m.moeEpSize, m.moeClusterSize;
    assert t * (e * c) == t * e * c && e * (t * c) == t * e * c;
    if e * c != 0 { ExactFloorDiv(t, e * c); }
    if t * c != 0 { ExactFloorDiv(e, t * c); }
  }

  lemma AttnSizesExactly(a: Args, m: Mapping)
    requires a.cpConfig != UnknownType
    ensures AttnSizesFit(a, m) <==>
              && AttnSizes(a) == Ok((m.attnTpSize, m.attnCpSize))
              && m.attnTpSize * m.attnCpSize == a.tpSize * a.cpSize && (IsUlysses(a) ==> m.attnCpSize == 1)
  {
    if m.attnCpSize != 0 { ExactFloorDiv(m.attnTpSize, m.attnCpSize); }
    if m.attnTpSize != 0 {
      assert m.attnCpSize * m.attnTpSize == m.attnTpSize * m.attnCpSize;
      ExactFloorDiv(m.attnCpSize, m.attnTpSize);
    }
  }

  /** The constructor returns the mapping that its arguments describe, and there is at most one. */
  lemma ConstructExactly(a: Args, m: Mapping)
    ensures Construct(a) == Ok(m) <==> Describes(a, m)
  {
    if a.cpConfig != UnknownType {
      MoeSizesExactly(a, m);
      AttnSizesExactly(a, m);
    }
  }

  /** The divisor is not zero and leaves no remainder. */
  predicate Splits(x: int, b: int) { b != 0 && x % b == 0 }

  /** Exactly when the expert-parallel sizes can be filled in, and come to one expert rank. */
  predicate MoeSizesPossible(a: Args) {
    a.dwdpSize > 1 ||
    if a.moeTpSize == -1 && a.moeEpSize == -1 then Splits(MoeWorld(a), Cluster(a))
    else if a.moeTpSize == -1 then Splits(MoeWorld(a), a.moeEpSize * Cluster(a))
    else if a.moeEpSize == -1 then Splits(MoeWorld(a), a.moeTpSize * Cluster(a))
    else a.moeTpSize * a.moeEpSize * Cluster(a) == MoeWorld(a)
  }

  predicate OneExpertRank(a: Args) {
    || a.dwdpSize > 1 || a.moeEpSize == 1 || (a.moeEpSize == -1 && a.moeTpSize == -1)
    || (a.moeEpSize == -1 && a.moeTpSize * Cluster(a) == MoeWorld(a))
  }

  predicate AttnSizesPossible(a: Args) {
    var ranks := a.tpSize * a.cpSize;
    if a.attnTpSize == -1 && a.attnCpSize == -1 then true
    else if a.attnTpSize == -1 then Splits(ranks, a.attnCpSize) && (IsUlysses(a) ==> a.attnCpSize == 1)
    else if a.attnCpSize == -1 then Splits(ranks, a.attnTpSize) && (IsUlysses(a) ==> a.attnTpSize == ranks)
    else a.attnTpSize * a.attnCpSize == ranks && (IsUlysses(a) ==> a.attnCpSize == 1)
  }

  /** One size given and the other filled in: they fit exactly if the division leaves no remainder. */
  lemma AutomaticSize(w: int, g: int, c: int)
    requires g * c != 0
    ensures var q := FloorDiv(w, g * c);
            && g * q * c == q * g * c && (q * g * c == w <==> w % (g * c) == 0)
            && (w % (g * c) == 0 ==> (q == 1 <==> g * c == w))
  {
    var q := FloorDiv(w, g * c);
    FloorDivExactly(w, g * c);
    assert q * (g * c) == q * g * c;
    ExactFloorDiv(1, g * c);
  }

  lemma MoeSizesPossibleExactly(a: Args)
    requires a.cpConfig != UnknownType
    ensures MoeSizesPossible(a) <==>
              && MoeSizes(a).Ok?
              && var moe := MoeSizes(a).value; a.dwdpSize > 1 || moe.0 * moe.1 * moe.2 == MoeWorld(a)
    ensures MoeSizesPossible(a) ==> MoeSizes(a).Ok? && (OneExpertRank(a) <==> MoeSizes(a).value.1 == 1)
    ensures MoeSizes(a).Ok? ==> MoeSizes(a).value.2 == if a.dwdpSize > 1 then 1 else Cluster(a)
  {
    var w, c := MoeWorld(a), Cluster(a);
    if a.dwdpSize > 1 {
    } else if a.moeTpSize == -1 && a.moeEpSize == -1 {
      if c != 0 {
        AutomaticSize(w, 1, c);
        assert 1 * c == c;
      }
    } else if a.moeTpSize == -1 {
      if a.moeEpSize * c != 0 { AutomaticSize(w, a.moeEpSize, c); }
    } else if a.moeEpSize == -1 {
      if a.moeTpSize * c != 0 { AutomaticSize(w, a.moeTpSize, c); }
    }
  }

  lemma AttnSizesPossibleExactly(a: Args)
    requires a.cpConfig != UnknownType
    ensures AttnSizesPossible(a) <==>
              && AttnSizes(a).Ok?
              && var attn := AttnSizes(a).value;
              attn.0 * attn.1 == a.tpSize * a.cpSize && (IsUlysses(a) ==> attn.1 == 1)
  {
    var ranks := a.tpSize * a.cpSize;
    if a.attnCpSize != 0 { FloorDivExactly(ranks, a.attnCpSize); }
    if a.attnTpSize != 0 {
      FloorDivExactly(ranks, a.attnTpSize);
      ExactFloorDiv(1, a.attnTpSize);
      var q := FloorDiv(ranks, a.attnTpSize);
      assert q * a.attnTpSize == a.attnTpSize * q;
    }
  }

  /** Exactly which arguments are accepted. */
  lemma ConstructSucceedsExactly(a: Args)
    ensures Construct(a).Ok? <==>
              && ArgsFit(a) && MoeSizesPossible(a) && AttnSizesPossible(a)
              && (OneExpertRank(a) || (Cluster(a) <= 1 && (a.cpSize <= 1 || a.cpConfig == Typed(Helix))))
  {
    if a.cpConfig != UnknownType {
      MoeSizesPossibleExactly(a);
      AttnSizesPossibleExactly(a);
    }
  }

  /** The error that is raised names a condition that the arguments fail. */
  lemma ErrorNamesFailure(a: Args)
    requires Construct(a).Err?
    ensures match Construct(a).error
            case BadDwdpSize => a.dwdpSize < 0 || a.dwdpSize == 1
            case BadDwdpRank => a.dwdpSize > 1 && !(0 <= a.dwdpRank < a.dwdpSize)
            case BadCpType => a.cpConfig == UnknownType
            case ZeroDivision =>
              || (a.dwdpSize == 0 && Cluster(a) * a.moeEpSize * a.moeTpSize == 0)
              || a.attnCpSize * a.attnTpSize == 0
            case UlyssesAttnCp => IsUlysses(a) && !AttnSizesPossible(a)
            case BadWorldSize => a.tpSize * a.ppSize * a.cpSize != a.worldSize
            case BadMoeSizes => !MoeSizesPossible(a)
            case BadAttnSizes => !AttnSizesPossible(a)
            case NoMoeWithCp => a.cpSize > 1 && a.cpConfig != Typed(Helix) && !OneExpertRank(a)
            case ClusterWithEp => Cluster(a) > 1 && !OneExpertRank(a)
            case LmHeadNeedsDp => a.enableLmHeadTpInAdp && !a.enableAttentionDp
            case BadRank => !a.enableAttentionDp && !(0 <= a.rank < a.worldSize)
            case NotHelix => false
  {
    if a.cpConfig != UnknownType {
      MoeSizesPossibleExactly(a);
      AttnSizesPossibleExactly(a);
    }
  }

  // ---------------------------------------------------------------------------
  // Folding never fails
  // ---------------------------------------------------------------------------

  /** What the constructor guarantees about a mapping it returns. */
  lemma ConstructedFacts(a: Args)
    requires Construct(a).Ok?
    ensures var m := Construct(a).value;
            && m.dwdpSize == a.dwdpSize && (m.dwdpSize == 0 || m.dwdpSize > 1)
            && (m.dwdpSize > 1 ==> 0 <= m.dwdpRank < m.dwdpSize)
            && m.tpSize * m.ppSize * m.cpSize == m.worldSize
            && m.moeClusterSize != -1
            && (m.moeTpSize != -1 || m.moeEpSize != -1)
            && (m.dwdpSize == 0 && m.cpConfig == Typed(Helix) ==>
                  m.moeTpSize * m.moeEpSize * m.moeClusterSize == m.tpSize * m.cpSize)
            && (m.moeClusterSize > 1 ==> m.moeEpSize == 1)
            && (m.enableLmHeadTpInAdp ==> m.enableAttentionDp)
  {
  }

  /** Filling in the defaults again gives the same expert-parallel sizes. */
  lemma SameMoeSizes(m: Mapping)
    requires m.dwdpSize == 0 && m.moeClusterSize != -1 && (m.moeTpSize != -1 || m.moeEpSize != -1)
    requires m.moeTpSize * m.moeEpSize * m.moeClusterSize == m.tpSize * m.cpSize != 0
    ensures MoeSizes(Folded(m)) == Ok((m.moeTpSize, m.moeEpSize, m.moeClusterSize))
  {
    var t, e, c := m.moeTpSize, m.moeEpSize, m.moeClusterSize;
    assert t * (e * c) == t * e * c && e * (t * c) == t * e * c;
    assert e * c != 0 && t * c != 0;
    ExactFloorDiv(t, e * c);
    ExactFloorDiv(e, t * c);
  }

  /** What the folded mapping is checked for. */
  ghost predicate Foldable(m: Mapping) {
    && (m.dwdpSize == 0 || m.dwdpSize > 1) && (m.dwdpSize > 1 ==> 0 <= m.dwdpRank < m.dwdpSize)
    && m.tpSize * m.cpSize * m.ppSize == m.worldSize && 0 <= m.rank < m.worldSize
    && (m.dwdpSize == 0 ==> m.moeTpSize * m.moeEpSize * m.moeClusterSize == m.tpSize * m.cpSize)
    && MoeSizes(Folded(m)) == Ok((m.moeTpSize, m.moeEpSize, m.moeClusterSize))
    && (m.moeClusterSize > 1 ==> m.moeEpSize == 1)
    && (m.enableLmHeadTpInAdp ==> m.enableAttentionDp)
  }

  lemma FoldableFolds(m: Mapping)
    requires Foldable(m)
    ensures Construct(Folded(m)) == Ok(Folded(m).(attnTpSize := m.tpSize * m.cpSize, attnCpSize := 1))
  {
    var f := Folded(m);
    assert f.tpSize * f.ppSize * f.cpSize == m.tpSize * m.cpSize * m.ppSize;
    assert f.tpSize * f.cpSize == m.tpSize * m.cpSize;
    assert AttnSizes(f) == Ok((m.tpSize * m.cpSize, 1));
    assert Checks(f, (m.moeTpSize, m.moeEpSize, m.moeClusterSize), (m.tpSize * m.cpSize, 1)) == None;
  }

  lemma HelixIsFoldable(a: Args)
    requires Construct(a).Ok?
    requires var m := Construct(a).value; HasCpHelix(m) && 0 <= m.rank < m.worldSize
    ensures Foldable(Construct(a).value)
  {
    ConstructedFacts(a);
    var m := Construct(a).value;
    StageNotEmpty(m.tpSize, m.ppSize, m.cpSize);
    if m.dwdpSize == 0 {
      SameMoeSizes(m);
    } else {
      assert (m.moeTpSize, m.moeEpSize, m.moeClusterSize) == (1, 1, 1);
    }
  }

  lemma StageNotEmpty(t: int, p: int, c: int)
    requires t * p * c != 0
    ensures t * c * p == t * p * c && t * c != 0
  {
  }

  /** A helix mapping that was constructed and whose rank is in range can always be folded, and the
      folded mapping differs only in the sizes it has to. */
  lemma FoldingNeverFails(a: Args)
    requires Construct(a).Ok?
    requires var m := Construct(a).value; HasCpHelix(m) && 0 <= m.rank < m.worldSize
    ensures var m := Construct(a).value;
            RepurposeHelixCpToTp(m) ==
              Ok(m.(cpSize := 1, cpConfig := Untyped, tpSize := m.tpSize * m.cpSize, attnTpSize := m.tpSize * m.cpSize,
                    attnCpSize := 1, helixRepurposedCpSize := m.cpSize))
  {
    HelixIsFoldable(a);
    FoldableFolds(Construct(a).value);
  }

  /** And no other mapping can. */
  lemma FoldsExactly(a: Args)
    requires Construct(a).Ok? && 0 <= a.rank < a.worldSize
    ensures RepurposeHelixCpToTp(Construct(a).value).Ok? <==> a.cpSize > 1 && a.cpConfig == Typed(Helix)
  {
    if a.cpSize > 1 && a.cpConfig == Typed(Helix) { FoldingNeverFails(a); }
  }

  // ---------------------------------------------------------------------------
  // What folding does to ranks and groups
  // ---------------------------------------------------------------------------

  function FoldedShape(s: Shape): Shape { Shape(s.tp * s.cp, s.pp, 1) }

  /** The groups of a list, one after another. */
  function Concatenated(groups: seq<seq<int>>): seq<int> {
    if groups == [] then [] else Concatenated(groups[..|groups| - 1]) + groups[|groups| - 1]
  }

  /** The context groups of one stage, in order. */
  function StageCpGroups(s: Shape, i: nat, n: nat): (r: seq<seq<int>>)
    ensures |r| == n && forall t | 0 <= t < n :: r[t] == CpGroup(s, i, t)
  {
    seq(n, t requires 0 <= t < n => CpGroup(s, i, t))
  }

  /** Ranks keep their stage and number; the tensor coordinate becomes the place in the stage. */
  lemma FoldedCoordinates(s: Shape, rank: nat)
    requires rank < s.World()
    ensures FoldedShape(s).World() == s.World()
    ensures PpRank(FoldedShape(s), rank) == PpRank(s, rank)
    ensures TpRank(FoldedShape(s), rank) == TpRank(s, rank) * s.cp + CpRank(s, rank)
    ensures CpRank(FoldedShape(s), rank) == 0
  {
    var stage := s.tp * s.cp;
    Decomposed(rank, s.tp, s.cp, stage);
    var p, i := rank / stage, rank % stage / s.cp * s.cp + rank % s.cp;
    InBlock(rank % stage / s.cp, s.tp, s.cp, rank % s.cp);
    DigitsDecode(p, i, stage);
    WithoutContext(stage, s.pp, rank);
  }

  /** Coordinates without context parallelism. */
  lemma WithoutContext(stage: Positive, pp: Positive, rank: nat)
    ensures var f := Shape(stage, pp, 1);
            && f.World() == pp * stage && PpRank(f, rank) == rank / stage
            && TpRank(f, rank) == rank % stage && CpRank(f, rank) == 0
  {
    assert stage * 1 == stage;
  }

  lemma FoldedPpGroups(s: Shape)
    ensures PpGroups(FoldedShape(s)) == PpGroups(s)
  {
    assert s.tp * s.cp * 1 == s.tp * s.cp;
    forall g | 0 <= g < |PpGroups(s)| ensures PpGroups(FoldedShape(s))[g] == PpGroups(s)[g] {
      assert PpGroup(FoldedShape(s), g) == PpGroup(s, g);
    }
  }

  lemma {:induction false} StageGroupsConcatenate(s: Shape, i: nat, n: nat)
    requires n <= s.tp
    ensures Concatenated(StageCpGroups(s, i, n)) == Steps(i * (s.tp * s.cp), 1, n * s.cp)
  {
    if n > 0 {
      StageGroupsConcatenate(s, i, n - 1);
      assert StageCpGroups(s, i, n)[..n - 1] == StageCpGroups(s, i, n - 1);
      assert n * s.cp == (n - 1) * s.cp + s.cp;
    }
  }

  /** They are the stretch of the topology's context groups that belongs to the stage. */
  lemma StageGroupsAreStretch(s: Shape, i: nat)
    requires i < s.pp
    ensures i * s.tp + s.tp <= |CpGroups(s)|
    ensures CpGroups(s)[i * s.tp..i * s.tp + s.tp] == StageCpGroups(s, i, s.tp)
  {
    InBlock(i, s.pp, s.tp, s.tp - 1);
    forall t: nat | t < s.tp ensures CpGroups(s)[i * s.tp + t] == CpGroup(s, i, t) {
      InBlock(i, s.pp, s.tp, t);
      DigitsDecode(i, t, s.tp);
    }
  }

  /** The new tensor group of a stage is the stage's old context groups, one after another. */
  lemma FoldedTpGroup(s: Shape, rank: nat)
    requires rank < s.World()
    ensures FoldedShape(s).World() == s.World()
    ensures TpGroupIndex(FoldedShape(s), rank) == PpRank(s, rank) < |TpGroups(FoldedShape(s))|
    ensures TpGroups(FoldedShape(s))[PpRank(s, rank)] == Concatenated(StageCpGroups(s, PpRank(s, rank), s.tp))
  {
    var f, i := FoldedShape(s), PpRank(s, rank);
    FoldedCoordinates(s, rank);
    SelectedTpGroup(f, rank);
    StageGroupsConcatenate(s, i, s.tp);
    var after, before := TpGroups(f)[i], Steps(i * (s.tp * s.cp), 1, s.tp * s.cp);
    assert f.tp * f.cp == s.tp * s.cp;
    assert i / 1 == i && i % 1 == 0;
    forall k | 0 <= k < s.tp * s.cp ensures after[k] == before[k] {}
    assert after == before;
  }

  // ---------------------------------------------------------------------------
  // The two together
  // ---------------------------------------------------------------------------

  /** The topology of a mapping with positive sizes. */
  function ShapeOf(m: Mapping): Shape
    requires m.tpSize > 0 && m.ppSize > 0 && m.cpSize > 0
  {
    Shape(m.tpSize, m.ppSize, m.cpSize)
  }

  lemma PositiveFactor(t: int, p: int, c: int, n: int)
    requires t > 0 && c > 0 && n > 0 && t * p * c == n
    ensures p > 0 && p * (t * c) == n
  {
    assert p * (t * c) == t * p * c;
    assert t * c > 0;
  }

  /** What folding leaves of the topology, seen from one rank. */
  ghost predicate FoldsTo(s: Shape, f: Shape, rank: nat)
    requires rank < s.World()
  {
    && f.World() == s.World()
    && PpRank(f, rank) == PpRank(s, rank)
    && TpRank(f, rank) == TpRank(s, rank) * s.cp + CpRank(s, rank)
    && PpGroups(f) == PpGroups(s)
    && var i := PpRank(s, rank);
    && i * s.tp + s.tp <= |CpGroups(s)| && TpGroupIndex(f, rank) < |TpGroups(f)|
    && TpGroups(f)[TpGroupIndex(f, rank)] == Concatenated(CpGroups(s)[i * s.tp..i * s.tp + s.tp])
  }

  lemma ShapeFolds(s: Shape, rank: nat)
    requires rank < s.World()
    ensures FoldsTo(s, FoldedShape(s), rank)
  {
    FoldedCoordinates(s, rank);
    FoldedPpGroups(s);
    RankOfCoordinates(s, rank);
    StageGroupsAreStretch(s, PpRank(s, rank));
    FoldedTpGroup(s, rank);
  }

  /**
   Folding a constructed helix mapping gives a mapping of the same rank in the same world, with its
   stage and pipeline groups, the tensor coordinate tp_rank * cp_size + cp_rank, and as its tensor
   group the stage's old context groups, one after another.
   */
  lemma FoldedMapping(a: Args)
    requires Construct(a).Ok?
    requires var m := Construct(a).value; HasCpHelix(m) && 0 <= m.rank < m.worldSize && m.tpSize > 0
    ensures var m := Construct(a).value;
            && m.ppSize > 0 && ShapeOf(m).World() == m.worldSize
            && var r := RepurposeHelixCpToTp(m);
            && r.Ok? && r.value.rank == m.rank && r.value.worldSize == m.worldSize
            && r.value.tpSize > 0 && r.value.ppSize > 0 && r.value.cpSize > 0
            && FoldsTo(ShapeOf(m), ShapeOf(r.value), m.rank)
  {
    FoldingNeverFails(a);
    ConstructedFacts(a);
    var m := Construct(a).value;
    PositiveFactor(m.tpSize, m.ppSize, m.cpSize, m.worldSize);
    ShapeFolds(ShapeOf(m), m.rank);
  }

  /**
   A constructed mapping without context parallelism and weight sharing has the shape that its
   expert-parallel coordinates rely on.
   */
  lemma ConstructedMoeShape(a: Args)
    requires Construct(a).Ok? && a.dwdpSize == 0 && a.cpSize == 1 && a.ppSize > 0
    requires var m := Construct(a).value; m.moeTpSize > 0 && m.moeEpSize > 0 && m.moeClusterSize > 0
    ensures var m := Construct(a).value;
            var shape := MoeTopology.MoeShape(m.ppSize, m.moeTpSize, m.moeClusterSize, m.moeEpSize);
            shape.Valid() && shape.Tp() == m.tpSize && shape.Plain().World() == m.worldSize
  {
    var m := Construct(a).value;
    ConstructExactly(a, m);
    assert m.moeTpSize * (m.moeClusterSize * m.moeEpSize) == m.moeTpSize * m.moeEpSize * m.moeClusterSize;
    assert a.tpSize * a.cpSize == a.tpSize && a.tpSize * a.ppSize * a.cpSize == a.ppSize * a.tpSize;
  }
}
