/** Which pipeline rank owns which layers, in tensorrt_llm/mapping.py. */
module PipelineLayers {
  import opened Sequences
  import opened MixedRadix

  datatype Error = WrongLength | WrongSum | NegativeSize | LayerOutOfRange | Unreachable

  datatype Result<+T> = Ok(value: T) | Err(error: Error)

  function Min(a: int, b: int): int { if a < b then a else b }

  // ---------------------------------------------------------------------------
  // The two ways to split
  // ---------------------------------------------------------------------------

  /** Where rank `r`'s piece starts when `n` layers are split as evenly as possible: the first
      ranks get one layer more. */
  function EvenStart(n: nat, pp: Positive, r: nat): nat {
    r * (n / pp) + Min(r, n % pp)
  }

  function PartitionStart(partition: seq<int>, r: nat): int
    requires r <= |partition|
  {
    Sum(partition[..r])
  }

  ghost predicate ValidPartition(partition: seq<int>, pp: Positive, n: nat) {
    |partition| == pp && Sum(partition) == n && forall k | 0 <= k < pp :: partition[k] >= 0
  }

  /** The layers of one rank: the split by sizes if sizes are given, otherwise the even split. */
  function PpLayers(pp: Positive, partition: Option<seq<int>>, n: nat, rank: nat): Result<seq<int>>
    requires rank < pp
  {
    match partition
    case Some(sizes) =>
      if |sizes| != pp then Err(WrongLength)
      else if Sum(sizes) != n then Err(WrongSum)
      else if exists k | 0 <= k < pp :: sizes[k] < 0 then Err(NegativeSize)
      else Ok(Range(PartitionStart(sizes, rank), PartitionStart(sizes, rank + 1)))
    case None =>
      Ok(Range(EvenStart(n, pp, rank), EvenStart(n, pp, rank + 1)))
  }

  /** Exactly when a rank gets layers, what is wrong otherwise, and how many layers it gets. */
  lemma PpLayersExactly(pp: Positive, partition: Option<seq<int>>, n: nat, rank: nat)
    requires rank < pp
    ensures var r := PpLayers(pp, partition, n, rank);
            && (r.Ok? <==> ValidSplit(pp, partition, n))
            && (r == Err(WrongLength) <==> partition.Some? && |partition.value| != pp)
            && (r == Err(WrongSum) <==> partition.Some? && |partition.value| == pp && Sum(partition.value) != n)
            && (r.Ok? ==> |r.value| == if partition.Some? then partition.value[rank]
                                       else n / pp + if rank < n % pp then 1 else 0)
  {
    if partition.Some? && |partition.value| == pp { NextPartitionStart(partition.value, rank); }
    NextEvenStart(n, pp, rank);
  }

  /** Where the pieces start, and one past the last: an increasing path from 0 to `n`. */
  function Start(pp: Positive, partition: Option<seq<int>>, n: nat, r: nat): int
    requires r <= pp && (partition.Some? ==> |partition.value| == pp)
  {
    match partition
    case Some(sizes) => PartitionStart(sizes, r)
    case None => EvenStart(n, pp, r)
  }

  ghost predicate ValidSplit(pp: Positive, partition: Option<seq<int>>, n: nat) {
    partition.Some? ==> ValidPartition(partition.value, pp, n)
  }

  lemma NextPartitionStart(sizes: seq<int>, r: nat)
    requires r < |sizes|
    ensures PartitionStart(sizes, r + 1) == PartitionStart(sizes, r) + sizes[r]
  {
    assert sizes[..r + 1][..r] == sizes[..r];
  }

  lemma NextEvenStart(n: nat, pp: Positive, r: nat)
    ensures EvenStart(n, pp, r + 1) == EvenStart(n, pp, r) + n / pp + if r < n % pp then 1 else 0
  {
    assert (r + 1) * (n / pp) == r * (n / pp) + n / pp;
  }

  lemma StartsIncrease(pp: Positive, partition: Option<seq<int>>, n: nat, r: nat)
    requires ValidSplit(pp, partition, n) && r < pp
    ensures Start(pp, partition, n, 0) == 0 && Start(pp, partition, n, pp) == n
    ensures Start(pp, partition, n, r) <= Start(pp, partition, n, r + 1)
  {
    match partition {
      case Some(sizes) =>
        assert sizes[..0] == [] && sizes[..pp] == sizes;
        NextPartitionStart(sizes, r);
      case None =>
        QuotientBounds(n, pp);
        NextEvenStart(n, pp, r);
    }
  }

  lemma {:induction false} StartsOrdered(pp: Positive, partition: Option<seq<int>>, n: nat, a: nat, b: nat)
    requires ValidSplit(pp, partition, n) && a <= b <= pp
    ensures Start(pp, partition, n, a) <= Start(pp, partition, n, b)
    decreases b - a
  {
    if a < b {
      StartsIncrease(pp, partition, n, a);
      StartsOrdered(pp, partition, n, a + 1, b);
    }
  }

  /** A valid split gives every rank its range. */
  lemma LayersAreRange(pp: Positive, partition: Option<seq<int>>, n: nat, rank: nat)
    requires ValidSplit(pp, partition, n) && rank < pp
    ensures PpLayers(pp, partition, n, rank) ==
              Ok(Range(Start(pp, partition, n, rank), Start(pp, partition, n, rank + 1)))
  {
  }

  /** All ranks' layers, in rank order. */
  function AllLayers(pp: Positive, partition: Option<seq<int>>, n: nat, ranks: nat): seq<int>
    requires ranks <= pp
  {
    if ranks == 0 then []
    else
      AllLayers(pp, partition, n, ranks - 1) +
      match PpLayers(pp, partition, n, ranks - 1)
      case Ok(layers) => layers
      case Err(_) => []
  }

  lemma {:induction false} LayersUpTo(pp: Positive, partition: Option<seq<int>>, n: nat, ranks: nat)
    requires ValidSplit(pp, partition, n) && ranks <= pp
    ensures AllLayers(pp, partition, n, ranks) == Range(0, Start(pp, partition, n, ranks))
  {
    if ranks == 0 {
      StartsIncrease(pp, partition, n, 0);
    } else {
      LayersUpTo(pp, partition, n, ranks - 1);
      LayersAreRange(pp, partition, n, ranks - 1);
      StartsIncrease(pp, partition, n, ranks - 1);
      StartsOrdered(pp, partition, n, 0, ranks - 1);
      var a, b := Start(pp, partition, n, ranks - 1), Start(pp, partition, n, ranks);
      RangesJoin(a, b);
    }
  }

  /** The ranks' layers, one after another, are all layers in order. */
  lemma LayersConcatenate(pp: Positive, partition: Option<seq<int>>, n: nat)
    requires ValidSplit(pp, partition, n)
    ensures AllLayers(pp, partition, n, pp) == Range(0, n)
  {
    LayersUpTo(pp, partition, n, pp);
    StartsIncrease(pp, partition, n, 0);
  }

  // ---------------------------------------------------------------------------
  // The owner of a layer
  // ---------------------------------------------------------------------------

  /** The rank whose layers include `layer`. */
  ghost predicate OwnsLayer(pp: Positive, partition: Option<seq<int>>, n: nat, layer: int, rank: nat) {
    && rank < pp
    && PpLayers(pp, partition, n, rank).Ok? && layer in PpLayers(pp, partition, n, rank).value
  }

  lemma OwnsByRange(pp: Positive, partition: Option<seq<int>>, n: nat, layer: int, rank: nat)
    requires ValidSplit(pp, partition, n) && rank < pp
    ensures OwnsLayer(pp, partition, n, layer, rank) <==>
              Start(pp, partition, n, rank) <= layer < Start(pp, partition, n, rank + 1)
  {
    LayersAreRange(pp, partition, n, rank);
    RangeMembers(Start(pp, partition, n, rank), Start(pp, partition, n, rank + 1), layer);
  }

  /** No two ranks own the same layer. */
  lemma OneOwner(pp: Positive, partition: Option<seq<int>>, n: nat, layer: int, a: nat, b: nat)
    requires ValidSplit(pp, partition, n)
    requires OwnsLayer(pp, partition, n, layer, a) && OwnsLayer(pp, partition, n, layer, b)
    ensures a == b
  {
    OwnsByRange(pp, partition, n, layer, a);
    OwnsByRange(pp, partition, n, layer, b);
    if a < b { StartsOrdered(pp, partition, n, a + 1, b); }
    if b < a { StartsOrdered(pp, partition, n, b + 1, a); }
  }

  /** The closed form for the even split, by the layers every rank has and the layers left over. */
  function OwnerIn(base: nat, rem: nat, layer: nat): nat {
    if base == 0 then layer
    else
      var cutoff := (base + 1) * rem;
      if layer < cutoff then layer / (base + 1) else rem + (layer - cutoff) / base
  }

  function EvenOwner(n: nat, pp: Positive, layer: nat): nat
    requires layer < n
  {
    OwnerIn(n / pp, n % pp, layer)
  }

  /** Among the ranks with one layer more, */
  lemma LowOwner(base: nat, rem: nat, layer: nat)
    requires layer < (base + 1) * rem
    ensures var owner := layer / (base + 1); owner < rem && owner * base + owner <= layer <= owner * base + owner + base
  {
    QuotientInRange(layer, rem, base + 1);
    var owner := layer / (base + 1);
    assert owner * (base + 1) == owner * base + owner;
  }

  /** and among the others. */
  lemma HighOwner(base: Positive, rem: nat, ranks: nat, beyond: nat)
    requires beyond < ranks * base
    ensures var owner := rem + beyond / base;
            owner < rem + ranks && owner * base <= rem * base + beyond < owner * base + base
  {
    QuotientInRange(beyond, ranks, base);
    assert (rem + beyond / base) * base == rem * base + beyond / base * base;
  }

  lemma EvenTotal(pp: nat, base: nat, rem: nat)
    requires rem <= pp
    ensures pp * base + rem == (pp - rem) * base + (base + 1) * rem
  {
  }

  lemma OwnerInOwns(base: nat, rem: nat, pp: nat, layer: nat)
    requires rem < pp && layer < pp * base + rem
    ensures var owner := OwnerIn(base, rem, layer);
            && owner < pp
            && owner * base + Min(owner, rem) <= layer
            && layer < owner * base + Min(owner, rem) + base + if owner < rem then 1 else 0
  {
    var cutoff := (base + 1) * rem;
    if base == 0 {
    } else if layer < cutoff {
      LowOwner(base, rem, layer);
    } else {
      EvenTotal(pp, base, rem);
      HighOwner(base, rem, pp - rem, layer - cutoff);
      assert cutoff == rem * base + rem;
    }
  }

  lemma EvenOwnerOwns(n: nat, pp: Positive, layer: nat)
    requires layer < n
    ensures EvenOwner(n, pp, layer) < pp
    ensures EvenStart(n, pp, EvenOwner(n, pp, layer)) <= layer < EvenStart(n, pp, EvenOwner(n, pp, layer) + 1)
  {
    var base, rem := n / pp, n % pp;
    assert n == pp * base + rem && rem < pp by { QuotientBounds(n, pp); }
    OwnerInOwns(base, rem, pp, layer);
    NextEvenStart(n, pp, EvenOwner(n, pp, layer));
  }

  /** The first rank at whose end the running total of the sizes passes the layer. */
  ghost predicate FirstBeyond(sizes: seq<int>, layer: int, rank: nat) {
    && rank < |sizes| && PartitionStart(sizes, rank + 1) > layer
    && forall k: nat | k <= rank :: PartitionStart(sizes, k) <= layer
  }

  /** There is only one such rank, and without negative sizes it owns the layer. */
  lemma FirstBeyondOwns(pp: Positive, sizes: seq<int>, n: nat, layer: nat, a: nat, b: nat)
    requires |sizes| == pp && layer < n && FirstBeyond(sizes, layer, a)
    ensures FirstBeyond(sizes, layer, b) ==> a == b
    ensures ValidPartition(sizes, pp, n) ==> OwnsLayer(pp, Some(sizes), n, layer, a)
  {
    assert PartitionStart(sizes, a) <= layer;
    if ValidPartition(sizes, pp, n) { OwnsByRange(pp, Some(sizes), n, layer, a); }
  }

  /** The rank that owns a layer: one lookup for the even split, a running total for given sizes. */
  method PpRankOfLayer(pp: Positive, partition: Option<seq<int>>, n: int, layer: int) returns (r: Result<nat>)
    ensures layer < 0 || layer >= n ==> r == Err(LayerOutOfRange)
    ensures 0 <= layer < n && pp == 1 ==> r == Ok(0)
    ensures 0 <= layer < n && pp > 1 && partition.Some? && |partition.value| != pp ==> r == Err(WrongLength)
    ensures 0 <= layer < n && pp > 1 && partition.Some? && |partition.value| == pp && Sum(partition.value) != n ==>
              r == Err(WrongSum)
    ensures 0 <= layer < n && pp > 1 && partition.Some? && |partition.value| == pp && Sum(partition.value) == n ==>
              r.Ok? && FirstBeyond(partition.value, layer, r.value)
    ensures 0 <= layer < n && ValidSplit(pp, partition, n) ==> r.Ok? && OwnsLayer(pp, partition, n, layer, r.value)
  {
    if layer < 0 || layer >= n { return Err(LayerOutOfRange); }
    if pp == 1 {
      if ValidSplit(pp, partition, n) {
        StartsIncrease(pp, partition, n, 0);
        OwnsByRange(pp, partition, n, layer, 0);
      }
      return Ok(0);
    }
    match partition {
      case Some(sizes) =>
        if |sizes| != pp { return Err(WrongLength); }
        if Sum(sizes) != n { return Err(WrongSum); }
        r := FindInPartition(pp, sizes, n, layer);
      case None =>
        EvenOwnerOwns(n, pp, layer);
        OwnsByRange(pp, partition, n, layer, EvenOwner(n, pp, layer));
        return Ok(EvenOwner(n, pp, layer));
    }
  }

  method FindInPartition(pp: Positive, sizes: seq<int>, n: nat, layer: nat) returns (r: Result<nat>)
    requires |sizes| == pp && Sum(sizes) == n && layer < n
    ensures r.Ok? && FirstBeyond(sizes, layer, r.value)
    ensures ValidPartition(sizes, pp, n) ==> OwnsLayer(pp, Some(sizes), n, layer, r.value)
  {
    var end := 0;
    assert sizes[..0] == [] && sizes[..pp] == sizes;
    for rank := 0 to |sizes|
      invariant end == PartitionStart(sizes, rank) && end <= layer
      invariant forall k: nat | k <= rank :: PartitionStart(sizes, k) <= layer
    {
      NextPartitionStart(sizes, rank);
      end := end + sizes[rank];
      if layer < end {
        FirstBeyondOwns(pp, sizes, n, layer, rank, rank);
        return Ok(rank);
      }
    }
    return Err(Unreachable);
  }

  /** The lookup's answer is the only rank whose layers include the layer. */
  lemma OwnerIsUnique(pp: Positive, partition: Option<seq<int>>, n: nat, layer: nat, answer: nat, rank: nat)
    requires ValidSplit(pp, partition, n) && layer < n && OwnsLayer(pp, partition, n, layer, answer)
    ensures OwnsLayer(pp, partition, n, layer, rank) <==> rank == answer
  {
    if OwnsLayer(pp, partition, n, layer, rank) { OneOwner(pp, partition, n, layer, rank, answer); }
  }
}
