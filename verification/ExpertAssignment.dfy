/**
 Expert ownership tables of triton_kernels/distributed.py. A dictionary from shards to lists of
 experts becomes a bit mask, a boolean mask and a table of local expert numbers.
 Mask words are 32-bit vectors: reading one bit out of a signed word by an arithmetic shift gives
 the same bit.
 */
module ExpertAssignment {
  import opened MixedRadix
  import opened Sequences
  import opened Sorting

  /** A Python dictionary in insertion order. */
  type Dict = seq<(int, seq<int>)>

  datatype Error =
    | EmptyShard(shard: int)
    | ShardOutOfRange(shard: int)
    | UnknownExpert(expert: int)
    | NotOwnedOnce

  datatype Result =
    | Accepted(bitmask: array2<bv32>, boolmask: array2<bool>, exptMap: array2<int>, perShard: seq<int>)
    | Rejected(error: Error)

  // ---------------------------------------------------------------------------
  // Bits
  // ---------------------------------------------------------------------------

  /** One shifted left by `b`. */
  function Single(b: nat): bv32
    requires b < 32
  {
    if b == 0 then 1 else Single(b - 1) << 1
  }

  predicate Meets(word: bv32, mask: bv32) { word & mask != 0 }

  predicate Bit(word: bv32, b: nat)
    requires b < 32
  {
    Meets(word, Single(b))
  }

  lemma ShiftRight(w: bv32, k: bv6)
    requires k < 32
    ensures Meets(w, 1 << k) <==> (w >> k) & 1 == 1
  {
  }

  /** A bit is set if the word shifted right by its index is odd, which is how the kernels read it. */
  lemma BitIsShift(w: bv32, b: nat)
    requires b < 32
    ensures Bit(w, b) <==> (w >> (b as bv6)) & 1 == 1
  {
    SingleIsShift(b);
    ShiftRight(w, b as bv6);
  }

  lemma ShiftTwice(k: bv6)
    requires k < 31
    ensures (1 as bv32 << k) << 1 == 1 as bv32 << (k + 1)
  {
  }

  lemma ShiftNotZero(k: bv6)
    requires k < 32
    ensures 1 as bv32 << k != 0
  {
  }

  lemma NextIndex(b: nat)
    requires b < 31
    ensures (b as bv6) + 1 == (b + 1) as bv6 && b as bv6 < 31
  {
  }

  lemma {:induction false} SingleIsShift(b: nat)
    requires b < 32
    ensures Single(b) == 1 << (b as bv6)
  {
    if b > 0 {
      SingleIsShift(b - 1);
      NextIndex(b - 1);
      ShiftTwice((b - 1) as bv6);
    }
  }

  lemma SingleNotZero(b: nat)
    requires b < 32
    ensures Single(b) != 0
  {
    SingleIsShift(b);
    ShiftNotZero(b as bv6);
  }

  lemma ShiftedApart(x: bv32, y: bv32)
    ensures x & y == 0 ==> (x << 1) & (y << 1) == 0
    ensures 1 & (y << 1) == 0
  {
  }

  lemma {:induction false} SinglesApart(b: nat, c: nat)
    requires b < c < 32
    ensures Single(b) & Single(c) == 0
  {
    if b == 0 {
      ShiftedApart(0, Single(c - 1));
    } else {
      SinglesApart(b - 1, c - 1);
      ShiftedApart(Single(b - 1), Single(c - 1));
    }
  }

  lemma AndCommutes(x: bv32, y: bv32)
    ensures x & y == y & x
  {
  }

  lemma SetsOwn(w: bv32, x: bv32)
    requires x != 0
    ensures Meets(w | x, x)
  {
  }

  lemma Distributes(w: bv32, x: bv32, y: bv32)
    ensures (w | x) & y == (w & y) | (x & y)
  {
  }

  lemma OrZero(z: bv32)
    ensures z | 0 == z
  {
  }

  lemma KeepsOthers(w: bv32, x: bv32, y: bv32)
    requires x & y == 0
    ensures Meets(w | x, y) == Meets(w, y)
  {
    Distributes(w, x, y);
    OrZero(w & y);
  }

  lemma {:induction false} SetOwnBit(w: bv32, now: bv32, b: nat, x: bv32)
    requires b < 32 && x == Single(b) && now == w | x
    ensures Bit(now, b)
  {
    SingleNotZero(b);
    SetsOwn(w, x);
  }

  lemma {:induction false} KeepOtherBit(w: bv32, now: bv32, b: nat, c: nat, x: bv32, y: bv32)
    requires b < 32 && c < 32 && b != c && x == Single(b) && y == Single(c) && now == w | x
    ensures Bit(now, c) <==> Bit(w, c)
  {
    assert x & y == 0 by {
      if b < c { SinglesApart(b, c); } else { SinglesApart(c, b); }
      AndCommutes(x, y);
    }
    KeepsOthers(w, x, y);
  }

  /** Setting a bit sets that bit and no other. */
  lemma {:induction false} SetBit(w: bv32, now: bv32, b: nat, c: nat)
    requires b < 32 && c < 32 && now == w | Single(b)
    ensures Bit(now, c) <==> b == c || Bit(w, c)
  {
    if b == c { SetOwnBit(w, now, b, Single(b)); } else { KeepOtherBit(w, now, b, c, Single(b), Single(c)); }
  }

  lemma ZeroHasNoBit(c: nat)
    requires c < 32
    ensures !Bit(0, c)
  {
  }

  // ---------------------------------------------------------------------------
  // Which dictionaries are accepted
  // ---------------------------------------------------------------------------

  /** All listed experts, in order. */
  function Flat(d: Dict): seq<int> {
    if d == [] then [] else Flat(d[..|d| - 1]) + d[|d| - 1].1
  }

  ghost predicate DistinctKeys(d: Dict) {
    forall i, j | 0 <= i < j < |d| :: d[i].0 != d[j].0
  }

  /** Shard `s` lists expert `e`. */
  ghost predicate Owns(d: Dict, s: int, e: int) {
    exists k | 0 <= k < |d| :: d[k].0 == s && e in d[k].1
  }

  ghost predicate InRange(nTot: nat, experts: seq<int>) {
    forall e | e in experts :: 0 <= e < nTot
  }

  /** Every shard is in range and lists experts in range, and every expert is listed exactly once. */
  ghost predicate ValidDict(nShard: nat, nTot: nat, d: Dict) {
    && (forall k | 0 <= k < |d| :: d[k].1 != [] && 0 <= d[k].0 < nShard && InRange(nTot, d[k].1))
    && forall e | 0 <= e < nTot :: multiset(Flat(d))[e] == 1
  }

  /** The first expert that has no counter. */
  function FirstUnknown(nTot: nat, experts: seq<int>): Option<Error> {
    if experts == [] then None
    else if 0 <= experts[0] < nTot then FirstUnknown(nTot, experts[1..])
    else Some(UnknownExpert(experts[0]))
  }

  function ScreenItem(nShard: nat, nTot: nat, shard: int, experts: seq<int>): Option<Error> {
    if experts == [] then Some(EmptyShard(shard))
    else if shard < 0 || shard >= nShard then Some(ShardOutOfRange(shard))
    else FirstUnknown(nTot, experts)
  }

  /** The first complaint about an item of the dictionary. */
  function Screen(nShard: nat, nTot: nat, d: Dict): Option<Error> {
    if d == [] then None
    else
      var earlier := Screen(nShard, nTot, d[..|d| - 1]);
      if earlier.Some? then earlier
      else ScreenItem(nShard, nTot, d[|d| - 1].0, d[|d| - 1].1)
  }

  function Verdict(nShard: nat, nTot: nat, d: Dict): Option<Error> {
    var screened := Screen(nShard, nTot, d);
    if screened.Some? then screened
    else if forall e | 0 <= e < nTot :: multiset(Flat(d))[e] == 1 then None
    else Some(NotOwnedOnce)
  }

  lemma {:induction false} FirstUnknownExactly(nTot: nat, experts: seq<int>)
    ensures FirstUnknown(nTot, experts).None? <==> InRange(nTot, experts)
  {
    if experts != [] {
      FirstUnknownExactly(nTot, experts[1..]);
      assert experts[0] in experts;
      assert forall e | e in experts[1..] :: e in experts;
      assert experts == [experts[0]] + experts[1..];
    }
  }

  lemma {:induction false} ScreenExactly(nShard: nat, nTot: nat, d: Dict)
    ensures Screen(nShard, nTot, d).None? <==>
              forall k | 0 <= k < |d| :: d[k].1 != [] && 0 <= d[k].0 < nShard && InRange(nTot, d[k].1)
  {
    if d != [] {
      var before, last := d[..|d| - 1], |d| - 1;
      ScreenExactly(nShard, nTot, before);
      FirstUnknownExactly(nTot, d[last].1);
      forall k | 0 <= k < last ensures before[k] == d[k] {}
    }
  }

  /** Exactly the valid dictionaries pass. */
  lemma AcceptedExactly(nShard: nat, nTot: nat, d: Dict)
    ensures Verdict(nShard, nTot, d).None? <==> ValidDict(nShard, nTot, d)
  {
    ScreenExactly(nShard, nTot, d);
  }

  // ---------------------------------------------------------------------------
  // Ownership in a valid dictionary
  // ---------------------------------------------------------------------------

  lemma {:induction false} FlatCounts(d: Dict, k: nat, e: int)
    requires k < |d|
    ensures multiset(Flat(d))[e] >= multiset(d[k].1)[e]
    ensures forall j | 0 <= j < |d| && j != k ::
              multiset(Flat(d))[e] >= multiset(d[k].1)[e] + multiset(d[j].1)[e]
  {
    var before, last := d[..|d| - 1], |d| - 1;
    if k < last {
      FlatCounts(before, k, e);
    }
    forall j | 0 <= j < |d| && j != k
      ensures multiset(Flat(d))[e] >= multiset(d[k].1)[e] + multiset(d[j].1)[e]
    {
      if j < last && k == last { FlatCounts(before, j, e); }
      if j < last && k < last { assert before[j] == d[j]; }
    }
  }

  lemma {:induction false} FlatMembers(d: Dict, e: int)
    ensures e in Flat(d) <==> exists k | 0 <= k < |d| :: e in d[k].1
  {
    if d != [] {
      var before, last := d[..|d| - 1], |d| - 1;
      FlatMembers(before, e);
      if k :| 0 <= k < |d| && e in d[k].1 {
        if k < last { assert before[k] == d[k]; }
      }
      if k :| 0 <= k < |before| && e in before[k].1 { assert d[k] == before[k]; }
    }
  }

  /** In a valid dictionary every expert has exactly one owner, which lists it exactly once. */
  lemma OneOwner(nShard: nat, nTot: nat, d: Dict, e: int)
    requires ValidDict(nShard, nTot, d) && 0 <= e < nTot
    ensures exists k | 0 <= k < |d| :: e in d[k].1
    ensures forall i, j | 0 <= i < |d| && 0 <= j < |d| && e in d[i].1 && e in d[j].1 :: i == j
    ensures forall k | 0 <= k < |d| :: multiset(d[k].1)[e] <= 1
  {
    assert e in multiset(Flat(d));
    FlatMembers(d, e);
    forall i, j | 0 <= i < |d| && 0 <= j < |d| && e in d[i].1 && e in d[j].1 ensures i == j {
      FlatCounts(d, i, e);
      assert e in multiset(d[i].1) && e in multiset(d[j].1);
    }
    forall k | 0 <= k < |d| ensures multiset(d[k].1)[e] <= 1 { FlatCounts(d, k, e); }
  }

  lemma TwiceCounts(s: seq<int>, i: nat, j: nat)
    requires i < j < |s| && s[i] == s[j]
    ensures multiset(s)[s[i]] >= 2
  {
    assert s == s[..i] + [s[i]] + s[i + 1..j] + [s[j]] + s[j + 1..];
  }

  lemma CountOneDistinct(s: seq<int>)
    requires forall x | x in s :: multiset(s)[x] <= 1
    ensures Distinct(s)
  {
    forall i, j | 0 <= i < j < |s| ensures s[i] != s[j] {
      if s[i] == s[j] { TwiceCounts(s, i, j); }
    }
  }

  lemma ShardListsDistinct(nShard: nat, nTot: nat, d: Dict, k: nat)
    requires ValidDict(nShard, nTot, d) && k < |d|
    ensures Distinct(d[k].1)
  {
    forall e | e in d[k].1 ensures multiset(d[k].1)[e] <= 1 { OneOwner(nShard, nTot, d, e); }
    CountOneDistinct(d[k].1);
  }

  function Lengths(d: Dict): (r: seq<int>)
    ensures |r| == |d| && forall k | 0 <= k < |d| :: r[k] == |d[k].1|
  {
    if d == [] then [] else Lengths(d[..|d| - 1]) + [|d[|d| - 1].1|]
  }

  lemma {:induction false} LengthsSum(d: Dict)
    ensures Sum(Lengths(d)) == |Flat(d)|
  {
    if d != [] {
      LengthsSum(d[..|d| - 1]);
      assert Lengths(d)[..|d| - 1] == Lengths(d[..|d| - 1]);
    }
  }

  lemma {:induction false} DistinctSize<T>(s: seq<T>)
    requires Distinct(s)
    ensures |Elements(s)| == |s|
  {
    if s != [] {
      DistinctSize(s[1..]);
      assert Elements(s) == {s[0]} + Elements(s[1..]) by { assert s == [s[0]] + s[1..]; }
      assert s[0] !in Elements(s[1..]);
    }
  }

  /** The shard sizes of a valid dictionary add up to the number of experts. */
  lemma SizesAddUp(nShard: nat, nTot: nat, d: Dict)
    requires ValidDict(nShard, nTot, d)
    ensures Sum(Lengths(d)) == nTot
  {
    LengthsSum(d);
    var flat := Flat(d);
    forall e ensures e in flat <==> 0 <= e < nTot {
      if 0 <= e < nTot { assert e in multiset(flat); }
      FlatMembers(d, e);
    }
    CountOneDistinct(flat);
    DistinctSize(flat);
    DistinctSize(Range(0, nTot));
    forall e ensures e in Range(0, nTot) <==> 0 <= e < nTot { RangeMembers(0, nTot, e); }
    assert Elements(flat) == Elements(Range(0, nTot));
  }

  // ---------------------------------------------------------------------------
  // Local expert numbers
  // ---------------------------------------------------------------------------

  predicate IntLeq(a: int, b: int) { a <= b }

  lemma IntOrder()
    ensures TotalOrder(IntLeq)
  {
  }

  /** How many experts of the list come before `e`. */
  function Below(experts: seq<int>, e: int): nat {
    |set x | x in experts && x < e|
  }

  lemma SortedDistinct(experts: seq<int>)
    requires Distinct(experts)
    ensures var t := Sort(experts, IntLeq);
            && |t| == |experts|
            && (forall x :: x in t <==> x in experts)
            && forall i, j | 0 <= i < j < |t| :: t[i] < t[j]
  {
    IntOrder();
    SortSorted(experts, IntLeq);
    var t := Sort(experts, IntLeq);
    SameElements(t, experts);
    forall x | x in t ensures multiset(t)[x] <= 1 { DistinctCountsOnce(experts, x); }
    CountOneDistinct(t);
  }

  lemma {:induction false} DistinctCountsOnce(s: seq<int>, x: int)
    requires Distinct(s)
    ensures multiset(s)[x] <= 1
  {
    if s != [] {
      DistinctCountsOnce(s[1..], x);
      assert s == [s[0]] + s[1..];
      if x == s[0] { assert x !in multiset(s[1..]); }
    }
  }

  lemma BelowIsPrefix(experts: seq<int>, t: seq<int>, i: nat)
    requires i < |t| && (forall x :: x in t <==> x in experts) && forall i, j | 0 <= i < j < |t| :: t[i] < t[j]
    ensures (set x | x in experts && x < t[i]) == Elements(t[..i])
  {
    forall x ensures (x in experts && x < t[i]) <==> x in t[..i] {
      if x in experts && x < t[i] {
        assert x in t;
        var j :| 0 <= j < |t| && t[j] == x;
        assert j < i;
      }
    }
  }

  /** The place of an expert in the sorted list is the number of smaller experts. */
  lemma PlaceInSorted(experts: seq<int>, i: nat)
    requires Distinct(experts) && i < |experts|
    ensures |Sort(experts, IntLeq)| == |experts|
    ensures Below(experts, Sort(experts, IntLeq)[i]) == i
  {
    SortedDistinct(experts);
    var t := Sort(experts, IntLeq);
    BelowIsPrefix(experts, t, i);
    DistinctSize(t[..i]);
  }

  /** Local numbers keep the order of the experts and are injective. */
  lemma LocalNumbersKeepOrder(experts: seq<int>, a: int, b: int)
    requires Distinct(experts) && a in experts && b in experts
    ensures a < b <==> Below(experts, a) < Below(experts, b)
    ensures Below(experts, a) < |experts|
  {
    SortedDistinct(experts);
    var t := Sort(experts, IntLeq);
    var i: nat :| i < |t| && t[i] == a;
    var j: nat :| j < |t| && t[j] == b;
    PlaceInSorted(experts, i);
    PlaceInSorted(experts, j);
  }

  /** Every number below the size of the list is the local number of exactly one expert. */
  lemma LocalNumbersBijective(experts: seq<int>, n: nat)
    requires Distinct(experts) && n < |experts|
    ensures exists a | a in experts :: Below(experts, a) == n
    ensures forall a, b | a in experts && b in experts && Below(experts, a) == n == Below(experts, b) :: a == b
  {
    SortedDistinct(experts);
    PlaceInSorted(experts, n);
    assert Sort(experts, IntLeq)[n] in experts;
    forall a, b | a in experts && b in experts && Below(experts, a) == n == Below(experts, b) ensures a == b {
      LocalNumbersKeepOrder(experts, a, b);
      LocalNumbersKeepOrder(experts, b, a);
    }
  }

  // ---------------------------------------------------------------------------
  // Filling the tables
  // ---------------------------------------------------------------------------

  /** Bit `e` of row `s`. */
  ghost predicate MaskBit(bitmask: array2<bv32>, s: int, e: int)
    requires 0 <= s < bitmask.Length0 && 0 <= e < 32 * bitmask.Length1
    reads bitmask
  {
    Bit(bitmask[s, e / 32], e % 32)
  }

  /** One shard's experts: count them and mark them in both masks, up to the first unknown one. */
  method MarkExperts(nTot: nat, shard: nat, experts: seq<int>,
                     counts: array<int>, bitmask: array2<bv32>, boolmask: array2<bool>)
    returns (error: Option<Error>)
    requires counts.Length == nTot && boolmask.Length1 == nTot && bitmask.Length1 == (nTot + 31) / 32
    requires shard < bitmask.Length0 == boolmask.Length0 && bitmask as object != boolmask
    modifies counts, bitmask, boolmask
    ensures error == FirstUnknown(nTot, experts)
    ensures error.None? ==>
              && (forall e | 0 <= e < nTot :: counts[e] == old(counts[e]) + multiset(experts)[e])
              && (forall s, e | 0 <= s < boolmask.Length0 && 0 <= e < nTot ::
                    boolmask[s, e] == (old(boolmask[s, e]) || (s == shard && e in experts)))
              && forall s, e | 0 <= s < bitmask.Length0 && 0 <= e < 32 * bitmask.Length1 ::
                   MaskBit(bitmask, s, e) == (old(MaskBit(bitmask, s, e)) || (s == shard && e in experts))
  {
    assert experts[0..] == experts;
    for i := 0 to |experts|
      invariant FirstUnknown(nTot, experts) == FirstUnknown(nTot, experts[i..])
      invariant forall e | 0 <= e < nTot :: counts[e] == old(counts[e]) + multiset(experts[..i])[e]
      invariant forall s, e | 0 <= s < boolmask.Length0 && 0 <= e < nTot ::
                  boolmask[s, e] == (old(boolmask[s, e]) || (s == shard && e in experts[..i]))
      invariant forall s, e | 0 <= s < bitmask.Length0 && 0 <= e < 32 * bitmask.Length1 ::
                  MaskBit(bitmask, s, e) == (old(MaskBit(bitmask, s, e)) || (s == shard && e in experts[..i]))
    {
      var x := experts[i];
      if !(0 <= x < nTot) { return Some(UnknownExpert(x)); }
      assert experts[..i + 1] == experts[..i] + [x];
      assert experts[i..][1..] == experts[i + 1..];
      counts[x] := counts[x] + 1;
      SetMaskBit(bitmask, shard, x);
      boolmask[shard, x] := true;
    }
    assert experts[..|experts|] == experts;
    error := None;
  }

  method SetMaskBit(bitmask: array2<bv32>, shard: nat, x: nat)
    requires shard < bitmask.Length0 && x < 32 * bitmask.Length1
    modifies bitmask
    ensures forall s, e | 0 <= s < bitmask.Length0 && 0 <= e < 32 * bitmask.Length1 ::
              MaskBit(bitmask, s, e) == (old(MaskBit(bitmask, s, e)) || (s == shard && e == x))
  {
    var word, bit := x / 32, x % 32;
    ghost var was := bitmask[shard, word];
    bitmask[shard, word] := bitmask[shard, word] | Single(bit);
    forall s, e | 0 <= s < bitmask.Length0 && 0 <= e < 32 * bitmask.Length1
      ensures MaskBit(bitmask, s, e) == (old(MaskBit(bitmask, s, e)) || (s == shard && e == x))
    {
      if s == shard && e / 32 == word { SetBit(was, bitmask[shard, word], bit, e % 32); }
    }
  }

  /** Counters and masks say what the items of `d` list. */
  ghost predicate Marked(nTot: nat, d: Dict, counts: array<int>, bitmask: array2<bv32>, boolmask: array2<bool>)
    requires counts.Length == nTot && boolmask.Length1 == nTot
    reads counts, bitmask, boolmask
  {
    && (forall e | 0 <= e < nTot :: counts[e] == multiset(Flat(d))[e])
    && (forall s, e | 0 <= s < boolmask.Length0 && 0 <= e < nTot :: boolmask[s, e] == Owns(d, s, e))
    && forall s, e | 0 <= s < bitmask.Length0 && 0 <= e < 32 * bitmask.Length1 ::
         MaskBit(bitmask, s, e) == Owns(d, s, e)
  }

  lemma OwnsOneMore(d: Dict, k: nat, s: int, e: int)
    requires k < |d|
    ensures Owns(d[..k + 1], s, e) <==> Owns(d[..k], s, e) || (s == d[k].0 && e in d[k].1)
  {
    var less, more := d[..k], d[..k + 1];
    if j :| 0 <= j < |more| && more[j].0 == s && e in more[j].1 {
      if j < k { assert less[j] == more[j]; }
    }
    if j :| 0 <= j < |less| && less[j].0 == s && e in less[j].1 { assert more[j] == less[j]; }
    assert more[k] == d[k];
  }

  lemma {:induction false} ScreenPrefix(nShard: nat, nTot: nat, d: Dict, k: nat)
    requires k <= |d| && Screen(nShard, nTot, d[..k]).Some?
    ensures Screen(nShard, nTot, d) == Screen(nShard, nTot, d[..k])
  {
    if k == |d| {
      assert d[..k] == d;
    } else {
      assert d[..|d| - 1][..k] == d[..k];
      ScreenPrefix(nShard, nTot, d[..|d| - 1], k);
    }
  }

  /** The first pass over the dictionary. */
  method MarkAll(nShard: nat, nTot: nat, d: Dict,
                 counts: array<int>, bitmask: array2<bv32>, boolmask: array2<bool>)
    returns (error: Option<Error>)
    requires counts.Length == nTot && boolmask.Length1 == nTot && bitmask.Length1 == (nTot + 31) / 32
    requires nShard == bitmask.Length0 == boolmask.Length0 && bitmask as object != boolmask
    requires Marked(nTot, [], counts, bitmask, boolmask)
    modifies counts, bitmask, boolmask
    ensures error == Screen(nShard, nTot, d)
    ensures error.None? ==> Marked(nTot, d, counts, bitmask, boolmask)
  {
    for k := 0 to |d|
      invariant Screen(nShard, nTot, d[..k]).None?
      invariant Marked(nTot, d[..k], counts, bitmask, boolmask)
    {
      var (shard, experts) := d[k];
      assert d[..k + 1][..k] == d[..k] && d[..k + 1][k] == d[k];
      if ScreenItem(nShard, nTot, shard, experts).Some? {
        ScreenPrefix(nShard, nTot, d, k + 1);
      }
      if experts == [] { return Some(EmptyShard(shard)); }
      if shard < 0 || shard >= nShard { return Some(ShardOutOfRange(shard)); }
      error := MarkExperts(nTot, shard, experts, counts, bitmask, boolmask);
      if error.Some? { return; }
      forall s, e ensures Owns(d[..k + 1], s, e) <==> Owns(d[..k], s, e) || (s == shard && e in experts) {
        OwnsOneMore(d, k, s, e);
      }
    }
    assert d[..|d|] == d;
    error := None;
  }

  /** Number the places of one row in the given order. */
  method FillRow(shard: nat, order: seq<int>, exptMap: array2<int>)
    requires shard < exptMap.Length0
    requires forall i | 0 <= i < |order| :: 0 <= order[i] < exptMap.Length1
    requires forall i, j | 0 <= i < j < |order| :: order[i] < order[j]
    modifies exptMap
    ensures forall i | 0 <= i < |order| :: exptMap[shard, order[i]] == i
    ensures forall s, e | 0 <= s < exptMap.Length0 && 0 <= e < exptMap.Length1 ::
              (s == shard && e in order) || exptMap[s, e] == old(exptMap[s, e])
  {
    for i := 0 to |order|
      invariant forall k | 0 <= k < i :: exptMap[shard, order[k]] == k
      invariant forall s, e | 0 <= s < exptMap.Length0 && 0 <= e < exptMap.Length1 ::
                  (s == shard && e in order) || exptMap[s, e] == old(exptMap[s, e])
    {
      exptMap[shard, order[i]] := i;
    }
  }

  /** One shard's local numbers, in the order of the sorted experts. */
  method NumberExperts(shard: nat, experts: seq<int>, exptMap: array2<int>)
    requires shard < exptMap.Length0 && InRange(exptMap.Length1, experts) && Distinct(experts)
    modifies exptMap
    ensures forall s, e | 0 <= s < exptMap.Length0 && 0 <= e < exptMap.Length1 ::
              exptMap[s, e] == if s == shard && e in experts then Below(experts, e) else old(exptMap[s, e])
  {
    SortedDistinct(experts);
    var order := Sort(experts, IntLeq);
    forall i: nat | i < |order| ensures 0 <= order[i] < exptMap.Length1 && Below(experts, order[i]) == i {
      PlaceInSorted(experts, i);
      assert order[i] in order;
    }
    FillRow(shard, order, exptMap);
    forall e | e in experts ensures exptMap[shard, e] == Below(experts, e) {
      assert e in order;
    }
  }

  /** What `exptMap` holds: the local number of every owned expert, -1 elsewhere. */
  ghost predicate Numbered(d: Dict, exptMap: array2<int>)
    reads exptMap
  {
    && (forall k, e | 0 <= k < |d| && e in d[k].1 && 0 <= d[k].0 < exptMap.Length0 && 0 <= e < exptMap.Length1 ::
          exptMap[d[k].0, e] == Below(d[k].1, e))
    && forall s, e | 0 <= s < exptMap.Length0 && 0 <= e < exptMap.Length1 && !Owns(d, s, e) :: exptMap[s, e] == -1
  }

  /** The second pass over the dictionary. */
  method NumberAll(nShard: nat, nTot: nat, d: Dict, exptMap: array2<int>)
    requires ValidDict(nShard, nTot, d) && DistinctKeys(d)
    requires exptMap.Length0 == nShard && exptMap.Length1 == nTot && Numbered([], exptMap)
    modifies exptMap
    ensures Numbered(d, exptMap)
  {
    for k := 0 to |d|
      invariant Numbered(d[..k], exptMap)
    {
      ShardListsDistinct(nShard, nTot, d, k);
      NumberExperts(d[k].0, d[k].1, exptMap);
      forall s, e ensures Owns(d[..k + 1], s, e) <==> Owns(d[..k], s, e) || (s == d[k].0 && e in d[k].1) {
        OwnsOneMore(d, k, s, e);
      }
      ghost var more := d[..k + 1];
      forall j, e | 0 <= j < k + 1 && e in more[j].1 ensures exptMap[more[j].0, e] == Below(more[j].1, e) {
        if j < k { assert d[..k][j] == d[j]; }
      }
    }
    assert d[..|d|] == d;
  }

  /** Counters and masks for an empty dictionary. */
  method NewMasks(nShard: nat, nTot: nat) returns (counts: array<int>, bitmask: array2<bv32>, boolmask: array2<bool>)
    ensures fresh(counts) && fresh(bitmask) && fresh(boolmask) && bitmask as object != boolmask
    ensures counts.Length == nTot && boolmask.Length0 == bitmask.Length0 == nShard
    ensures boolmask.Length1 == nTot && bitmask.Length1 == (nTot + 31) / 32
    ensures Marked(nTot, [], counts, bitmask, boolmask)
  {
    bitmask := new bv32[nShard, (nTot + 31) / 32]((_, _) => 0);
    boolmask := new bool[nShard, nTot]((_, _) => false);
    counts := new int[nTot](_ => 0);
    forall b: nat | b < 32 ensures !Bit(0, b) { ZeroHasNoBit(b); }
  }

  /** The tables agree with the dictionary they were made from. */
  ghost predicate TablesCorrect(nShard: nat, nTot: nat, d: Dict,
                                bitmask: array2<bv32>, boolmask: array2<bool>, exptMap: array2<int>, perShard: seq<int>)
    reads bitmask, boolmask, exptMap
  {
    && bitmask.Length0 == boolmask.Length0 == exptMap.Length0 == nShard
    && boolmask.Length1 == exptMap.Length1 == nTot && bitmask.Length1 == (nTot + 31) / 32
    && (forall s, e | 0 <= s < nShard && 0 <= e < nTot :: boolmask[s, e] == Owns(d, s, e))
    && (forall s, e | 0 <= s < nShard && 0 <= e < nTot :: MaskBit(bitmask, s, e) == boolmask[s, e])
    && (forall s, e | 0 <= s < nShard && nTot <= e < 32 * bitmask.Length1 :: !MaskBit(bitmask, s, e))
    && Numbered(d, exptMap)
    && |perShard| == |d| && (forall k | 0 <= k < |d| :: perShard[k] == |d[k].1|)
    && Sum(perShard) == nTot
  }

  /** Build the tables; the dictionary is accepted exactly when it is valid. */
  method MakeExptAssignment(nShard: nat, nTot: nat, d: Dict) returns (r: Result)
    requires DistinctKeys(d)
    ensures r.Accepted? <==> ValidDict(nShard, nTot, d)
    ensures r.Rejected? ==> Verdict(nShard, nTot, d) == Some(r.error)
    ensures r.Accepted? ==> TablesCorrect(nShard, nTot, d, r.bitmask, r.boolmask, r.exptMap, r.perShard)
  {
    AcceptedExactly(nShard, nTot, d);
    var counts, bitmask, boolmask := NewMasks(nShard, nTot);
    var error := MarkAll(nShard, nTot, d, counts, bitmask, boolmask);
    if error.Some? { return Rejected(error.value); }
    if !(forall e | 0 <= e < nTot :: counts[e] == 1) { return Rejected(NotOwnedOnce); }
    var exptMap := new int[nShard, nTot]((_, _) => -1);
    NumberAll(nShard, nTot, d, exptMap);
    SizesAddUp(nShard, nTot, d);
    return Accepted(bitmask, boolmask, exptMap, Lengths(d));
  }

  // ---------------------------------------------------------------------------
  // Generated dictionaries
  // ---------------------------------------------------------------------------

  /** Shard `i` lists the `i`-th block of `q` consecutive experts. */
  ghost predicate Blocks(q: nat, d: Dict) {
    forall i | 0 <= i < |d| :: d[i].0 == i && d[i].1 == Range(q * i, q * (i + 1))
  }

  /** Equal consecutive blocks, one per shard; experts past the last whole block are left out. */
  method MakeExptDictUniform(nShard: nat, nTot: nat) returns (d: Dict)
    ensures DistinctKeys(d) && |d| == nShard
    ensures nShard > 0 ==> Blocks(nTot / nShard, d)
    ensures ValidDict(nShard, nTot, d) <==> if nShard == 0 then nTot == 0 else nTot > 0 && nTot % nShard == 0
  {
    d := [];
    for i := 0 to nShard
      invariant |d| == i
      invariant nShard > 0 ==> Blocks(nTot / nShard, d)
    {
      var start := nTot / nShard * i;
      var end := nTot / nShard * (i + 1);
      d := d + [(i, Range(start, end))];
    }
    if nShard > 0 {
      UniformAccepted(nShard, nTot, d);
    } else {
      assert nTot > 0 ==> multiset(Flat(d))[0] == 0;
    }
  }

  lemma LastBlock(q: nat, d: Dict) returns (start: nat)
    requires Blocks(q, d) && d != []
    ensures start == q * (|d| - 1) && q * |d| == start + q
    ensures Blocks(q, d[..|d| - 1]) && d[|d| - 1].1 == Range(start, start + q)
  {
    var n := |d| - 1;
    start := q * n;
    assert q * (n + 1) == q * n + q;
  }

  /** The blocks laid end to end are one range. */
  lemma {:induction false} UniformFlat(q: nat, d: Dict)
    requires Blocks(q, d)
    ensures Flat(d) == Range(0, q * |d|)
  {
    if d != [] {
      var start := LastBlock(q, d);
      UniformFlat(q, d[..|d| - 1]);
      RangesJoin(start, start + q);
    }
  }

  lemma RangeCounts(n: nat, e: int)
    ensures multiset(Range(0, n))[e] == if 0 <= e < n then 1 else 0
  {
    var flat := Range(0, n);
    RangeMembers(0, n, e);
    DistinctCountsOnce(flat, e);
    assert e in multiset(flat) <==> e in flat;
  }

  lemma RangeInside(from: int, to: int, n: nat)
    requires 0 <= from < to <= n
    ensures Range(from, to) != [] && InRange(n, Range(from, to))
  {
    var r := Range(from, to);
    forall e | e in r ensures 0 <= e < n { RangeMembers(from, to, e); }
  }

  lemma BlockBounds(q: nat, n: nat, i: nat)
    requires q > 0 && i < n
    ensures 0 <= q * i < q * (i + 1) <= q * n
  {
    var k := n - i - 1;
    assert q * k >= 0 && q * i >= 0;
    assert q * (i + 1) == q * i + q;
    assert q * n == q * (i + 1 + k) == q * i + q + q * k;
  }

  /** `covered` experts are listed, and `covered` is `nTot` only if the blocks fit. */
  lemma UniformValid(nShard: nat, q: nat, d: Dict, covered: nat)
    requires q > 0 && |d| == nShard && Blocks(q, d) && covered == q * nShard
    ensures ValidDict(nShard, covered, d)
    ensures forall e :: multiset(Flat(d))[e] == if 0 <= e < covered then 1 else 0
  {
    UniformFlat(q, d);
    forall i | 0 <= i < nShard ensures d[i].1 != [] && InRange(covered, d[i].1) {
      BlockBounds(q, nShard, i);
      RangeInside(q * i, q * (i + 1), covered);
    }
    forall e ensures multiset(Flat(d))[e] == if 0 <= e < covered then 1 else 0 { RangeCounts(covered, e); }
  }

  lemma UniformAccepted(nShard: nat, nTot: nat, d: Dict)
    requires nShard > 0 && |d| == nShard && Blocks(nTot / nShard, d)
    ensures ValidDict(nShard, nTot, d) <==> nTot > 0 && nTot % nShard == 0
  {
    var q, left := nTot / nShard, nTot % nShard;
    QuotientBounds(nTot, nShard);
    if q == 0 {
      assert d[0].1 == [];
    } else {
      UniformValid(nShard, q, d, nTot - left);
      if left != 0 { assert multiset(Flat(d))[nTot - 1] == 0; }
    }
  }

  /** Distinct points strictly between 0 and `nTot`. */
  ghost predicate CutPoints(nTot: nat, sample: seq<int>) {
    && (forall c | c in sample :: 1 <= c < nTot)
    && Distinct(sample)
  }

  /** How many points can be drawn from 1..nTot-1. */
  function Population(nTot: nat): nat {
    if nTot == 0 then 0 else nTot - 1
  }

  /** The borders of the pieces. */
  function Borders(nTot: nat, sample: seq<int>): seq<int> {
    [0] + Sort(sample, IntLeq) + [nTot]
  }

  /** Between borders `i` and `i + 1` there are experts, if there are any at all. */
  ghost predicate Apart(nTot: nat, cuts: seq<int>, i: nat)
    requires i + 1 < |cuts|
  {
    0 <= cuts[i] <= cuts[i + 1] <= nTot && (cuts[i] < cuts[i + 1] <==> nTot > 0)
  }

  lemma BorderApart(nTot: nat, t: seq<int>, cuts: seq<int>, i: nat)
    requires cuts == [0] + t + [nTot] && i <= |t|
    requires (forall j | 0 <= j < |t| :: 1 <= t[j] < nTot) && forall i, j | 0 <= i < j < |t| :: t[i] < t[j]
    ensures Apart(nTot, cuts, i)
  {
    assert i == 0 || cuts[i] == t[i - 1];
    assert i == |t| || cuts[i + 1] == t[i];
  }

  lemma BordersIncrease(nTot: nat, sample: seq<int>)
    requires CutPoints(nTot, sample)
    ensures var cuts := Borders(nTot, sample);
            && |cuts| == |sample| + 2 && cuts[0] == 0 && cuts[|sample| + 1] == nTot
            && forall i: nat | i <= |sample| :: Apart(nTot, cuts, i)
  {
    SortedDistinct(sample);
    var t := Sort(sample, IntLeq);
    forall j | 0 <= j < |t| ensures 1 <= t[j] < nTot { assert t[j] in t; }
    var cuts := Borders(nTot, sample);
    forall i: nat | i <= |sample| ensures Apart(nTot, cuts, i) { BorderApart(nTot, t, cuts, i); }
  }

  /** The pieces up to border `a`. */
  ghost predicate Pieces(d: Dict, nTot: nat, perm: seq<int>, a: int) {
    && 0 <= a <= |perm| && Flat(d) == perm[..a]
    && forall j | 0 <= j < |d| :: d[j].0 == j && (d[j].1 != [] <==> nTot > 0) && forall e | e in d[j].1 :: e in perm
  }

  lemma NextPiece(d: Dict, nTot: nat, perm: seq<int>, a: int, b: int)
    requires Pieces(d, nTot, perm, a) && a <= b <= |perm| && (a < b <==> nTot > 0)
    ensures Pieces(d + [(|d|, perm[a..b])], nTot, perm, b)
  {
    var grown := d + [(|d|, perm[a..b])];
    assert grown[..|grown| - 1] == d;
    assert perm[..b] == perm[..a] + perm[a..b];
  }

  method CutUp(nShard: nat, nTot: nat, perm: seq<int>, cuts: seq<int>) returns (d: Dict)
    requires |perm| == nTot && |cuts| == nShard + 1 && cuts[0] == 0
    requires forall i: nat | i < nShard :: Apart(nTot, cuts, i)
    ensures |d| == nShard && Pieces(d, nTot, perm, cuts[nShard])
  {
    d := [];
    for i := 0 to nShard
      invariant |d| == i && Pieces(d, nTot, perm, cuts[i])
    {
      assert Apart(nTot, cuts, i);
      var a, b := cuts[i], cuts[i + 1];
      NextPiece(d, nTot, perm, a, b);
      d := d + [(i, perm[a..b])];
    }
  }

  /**
   Consecutive pieces of a shuffled list, cut at distinct random points. `perm` and `sample` are
   what the random generator returned; None is the error of drawing more points than there are.
   */
  method MakeExptDictRandom(nShard: int, nTot: nat, perm: seq<int>, sample: seq<int>) returns (r: Option<Dict>)
    requires multiset(perm) == multiset(Range(0, nTot))
    requires nShard == 1 || 1 <= nShard <= nTot ==> |sample| == nShard - 1 && CutPoints(nTot, sample)
    ensures r.Some? <==> nShard == 1 || 1 <= nShard <= nTot
    ensures r.Some? ==> DistinctKeys(r.value) && |r.value| == nShard && Flat(r.value) == perm
    ensures r.Some? ==> (ValidDict(nShard, nTot, r.value) <==> nTot > 0)
  {
    if !(0 <= nShard - 1 <= Population(nTot)) { return None; }
    BordersIncrease(nTot, sample);
    SameElements(perm, Range(0, nTot));
    var d := CutUp(nShard, nTot, perm, Borders(nTot, sample));
    PiecesAccepted(nShard, nTot, d, perm);
    return Some(d);
  }

  lemma PiecesAccepted(nShard: nat, nTot: nat, d: Dict, perm: seq<int>)
    requires multiset(perm) == multiset(Range(0, nTot)) && |d| == nShard > 0 && |perm| == nTot
    requires Pieces(d, nTot, perm, nTot)
    ensures Flat(d) == perm
    ensures ValidDict(nShard, nTot, d) <==> nTot > 0
  {
    assert perm[..nTot] == perm;
    SameElements(perm, Range(0, nTot));
    forall j, e | 0 <= j < nShard && e in d[j].1 ensures 0 <= e < nTot { RangeMembers(0, nTot, e); }
    forall e | 0 <= e < nTot ensures multiset(perm)[e] == 1 { RangeCounts(nTot, e); }
    if nTot == 0 { assert d[0].1 == []; }
  }

  // ---------------------------------------------------------------------------
  // The order of the shard sizes
  // ---------------------------------------------------------------------------

  ghost predicate KeysAre(d: Dict, keys: seq<int>) {
    |d| == |keys| && forall i | 0 <= i < |d| :: d[i].0 == keys[i]
  }

  /** Shard `s` owns `n` experts. */
  ghost predicate ShardSize(d: Dict, s: int, n: int) {
    || (exists k | 0 <= k < |d| :: d[k].0 == s && |d[k].1| == n)
    || (n == 0 && forall k | 0 <= k < |d| :: d[k].0 != s)
  }

  /** Entry `i` of the size list is the size of shard `i`. */
  ghost predicate SizesByShard(d: Dict) {
    forall i | 0 <= i < |d| :: ShardSize(d, i, Lengths(d)[i])
  }

  /** One expert for every place of the dictionary, two for the place `twice`. */
  function Lopsided(keys: seq<int>, twice: nat): (d: Dict)
    ensures |d| == |keys|
    ensures forall i | 0 <= i < |d| :: d[i].0 == keys[i]
    ensures forall i | 0 <= i < |d| :: d[i].1 == if i < twice then [i] else if i == twice then [i, i + 1] else [i + 1]
  {
    seq(|keys|, i requires 0 <= i < |keys| =>
      (keys[i], if i < twice then [i] else if i == twice then [i, i + 1] else [i + 1]))
  }

  lemma {:induction false} LopsidedFlat(keys: seq<int>, twice: nat)
    ensures Flat(Lopsided(keys, twice)) == Range(0, if twice < |keys| then |keys| + 1 else |keys|)
  {
    if keys != [] {
      LopsidedFlat(keys[..|keys| - 1], twice);
      assert Lopsided(keys, twice)[..|keys| - 1] == Lopsided(keys[..|keys| - 1], twice);
    }
  }

  lemma LopsidedList(keys: seq<int>, twice: nat, k: nat)
    requires k < |keys|
    ensures var experts := Lopsided(keys, twice)[k].1; experts != [] && InRange(|keys| + 1, experts)
  {
  }

  lemma LopsidedValid(nShard: nat, keys: seq<int>, twice: nat)
    requires (forall s | s in keys :: 0 <= s < nShard) && twice < |keys|
    ensures ValidDict(nShard, |keys| + 1, Lopsided(keys, twice))
  {
    var d := Lopsided(keys, twice);
    LopsidedFlat(keys, twice);
    forall e | 0 <= e < |keys| + 1 ensures multiset(Flat(d))[e] == 1 { RangeCounts(|keys| + 1, e); }
    forall k | 0 <= k < |d| ensures 0 <= d[k].0 < nShard && d[k].1 != [] && InRange(|keys| + 1, d[k].1) {
      assert keys[k] in keys;
      LopsidedList(keys, twice, k);
    }
  }

  lemma LopsidedMisplaced(keys: seq<int>, twice: nat)
    requires twice < |keys| && keys[twice] != twice
    ensures !SizesByShard(Lopsided(keys, twice))
  {
    var d := Lopsided(keys, twice);
    assert Lengths(d)[twice] == |d[twice].1| == 2;
    forall k | 0 <= k < |d| && d[k].0 == twice ensures |d[k].1| == 1 {}
    assert !ShardSize(d, twice, Lengths(d)[twice]);
  }

  /**
   The size list follows the dictionary's insertion order. For a given list of keys it is the list
   of sizes by shard, whatever valid dictionary has these keys, exactly when the keys are 0, 1, 2, ...
   */
  lemma SizesByShardExactly(nShard: nat, keys: seq<int>)
    requires forall s | s in keys :: 0 <= s < nShard
    ensures (forall nTot: nat, d | ValidDict(nShard, nTot, d) && KeysAre(d, keys) :: SizesByShard(d)) <==>
            forall i | 0 <= i < |keys| :: keys[i] == i
  {
    if i :| 0 <= i < |keys| && keys[i] != i {
      LopsidedValid(nShard, keys, i);
      LopsidedMisplaced(keys, i);
      assert KeysAre(Lopsided(keys, i), keys);
    } else {
      forall nTot: nat, d: Dict | ValidDict(nShard, nTot, d) && KeysAre(d, keys) ensures SizesByShard(d) {
        forall i | 0 <= i < |d| ensures ShardSize(d, i, Lengths(d)[i]) { assert d[i].0 == i; }
      }
    }
  }
}
