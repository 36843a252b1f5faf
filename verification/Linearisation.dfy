/**
 The inheritance chain of scripts/split_qa_by_gpu.py: Python's C3 method-resolution merge, run over
 the classes of one test module. Classes are named by the key under which the module's dictionary
 holds them; bases that are not plain names, or name no class of the module, are left out.
 */
module Linearisation {
  import opened Sequences

  /** A base-class expression: a plain name, or any other expression. */
  datatype Base = Name(id: string) | Expression

  /** The base list of every class of a module. */
  type Hierarchy = map<string, seq<Base>>

  /** What reading a chain ends with. Diverges stands for the interpreter's recursion limit. */
  datatype Outcome = Order(classes: seq<string>) | Inconsistent(name: string) | Diverges

  /** The results for a list of bases, or the first failure among them. */
  datatype Chains = Chains(orders: seq<seq<string>>) | Failed(outcome: Outcome)

  function LocalBases(h: Hierarchy, bases: seq<Base>): (r: seq<string>)
    ensures forall c | c in r :: c in h
  {
    if bases == [] then []
    else
      var rest := LocalBases(h, bases[1..]);
      if bases[0].Name? && bases[0].id in h then [bases[0].id] + rest else rest
  }

  /** A base is taken if it names a class of the module, before those listed after it. */
  lemma FirstBase(h: Hierarchy, x: Base, rest: seq<Base>)
    ensures LocalBases(h, [x] + rest) == (if x.Name? && x.id in h then [x.id] else []) + LocalBases(h, rest)
  {
    assert ([x] + rest)[1..] == rest;
  }

  lemma Regrouped(x: seq<string>, a: seq<string>, b: seq<string>)
    ensures x + (a + b) == x + a + b
  {
  }

  /** So the base list is read from left to right. */
  lemma {:induction false} BasesLeftToRight(h: Hierarchy, a: seq<Base>, b: seq<Base>)
    ensures LocalBases(h, a + b) == LocalBases(h, a) + LocalBases(h, b)
  {
    if a == [] {
      assert a + b == b;
    } else {
      var x, rest := a[0], a[1..];
      BasesLeftToRight(h, rest, b);
      assert a + b == [x] + (rest + b) && a == [x] + rest;
      FirstBase(h, x, rest + b);
      FirstBase(h, x, rest);
      Regrouped(if x.Name? && x.id in h then [x.id] else [], LocalBases(h, rest), LocalBases(h, b));
    }
  }

  /** Two bases of the list are local bases, in the same order. */
  lemma {:induction false} BasesInOrder(h: Hierarchy, list: seq<Base>, i: nat, j: nat) returns (k: nat, l: nat)
    requires i < j < |list| && list[i].Name? && list[j].Name? && list[i].id in h && list[j].id in h
    ensures k < l < |LocalBases(h, list)|
    ensures LocalBases(h, list)[k] == list[i].id && LocalBases(h, list)[l] == list[j].id
  {
    var x, y, a, b, c := list[i], list[j], list[..i], list[i + 1..j], list[j + 1..];
    assert list == a + ([x] + (b + ([y] + c)));
    BasesLeftToRight(h, a, [x] + (b + ([y] + c)));
    FirstBase(h, x, b + ([y] + c));
    BasesLeftToRight(h, b, [y] + c);
    FirstBase(h, y, c);
    k := |LocalBases(h, a)|;
    l := k + 1 + |LocalBases(h, b)|;
  }

  // ---------------------------------------------------------------------------
  // The merge
  // ---------------------------------------------------------------------------

  /** `c` waits for nothing: no sequence has it behind its head. */
  predicate Legal(c: string, seqs: seq<seq<string>>) {
    forall s | s in seqs :: s != [] ==> c !in s[1..]
  }

  /** The head of the first sequence of `scan` whose head is legal with respect to `all`. */
  function Candidate(scan: seq<seq<string>>, all: seq<seq<string>>): Option<string> {
    if scan == [] then None
    else if scan[0] != [] && Legal(scan[0][0], all) then Some(scan[0][0])
    else Candidate(scan[1..], all)
  }

  function Pop(s: seq<string>, c: string): seq<string> {
    if s != [] && s[0] == c then s[1..] else s
  }

  /** Remove `c` from the head of every sequence that starts with it. */
  function PopHeads(seqs: seq<seq<string>>, c: string): (r: seq<seq<string>>)
    ensures |r| == |seqs|
    ensures forall i | 0 <= i < |r| :: r[i] == Pop(seqs[i], c)
  {
    if seqs == [] then [] else [Pop(seqs[0], c)] + PopHeads(seqs[1..], c)
  }

  function TotalLength(seqs: seq<seq<string>>): nat {
    if seqs == [] then 0 else |seqs[0]| + TotalLength(seqs[1..])
  }

  predicate Exhausted(seqs: seq<seq<string>>) {
    forall s | s in seqs :: s == []
  }

  lemma {:induction false} CandidateIsLegalHead(scan: seq<seq<string>>, all: seq<seq<string>>)
    requires Candidate(scan, all).Some?
    ensures var c := Candidate(scan, all).value;
            Legal(c, all) && exists i | 0 <= i < |scan| :: scan[i] != [] && scan[i][0] == c
  {
    if scan[0] != [] && Legal(scan[0][0], all) {
    } else {
      CandidateIsLegalHead(scan[1..], all);
      var c := Candidate(scan, all).value;
      var i :| 0 <= i < |scan[1..]| && scan[1..][i] != [] && scan[1..][i][0] == c;
      assert scan[i + 1] == scan[1..][i];
    }
  }

  lemma {:induction false} LegalHeadGivesCandidate(scan: seq<seq<string>>, all: seq<seq<string>>, i: nat)
    requires i < |scan| && scan[i] != [] && Legal(scan[i][0], all)
    ensures Candidate(scan, all).Some?
  {
    if i > 0 && !(scan[0] != [] && Legal(scan[0][0], all)) {
      assert scan[1..][i - 1] == scan[i];
      LegalHeadGivesCandidate(scan[1..], all, i - 1);
    }
  }

  lemma {:induction false} PopHeadsShrinks(seqs: seq<seq<string>>, c: string)
    ensures TotalLength(PopHeads(seqs, c)) <= TotalLength(seqs)
    ensures (exists i | 0 <= i < |seqs| :: seqs[i] != [] && seqs[i][0] == c) ==>
              TotalLength(PopHeads(seqs, c)) < TotalLength(seqs)
  {
    if seqs != [] {
      PopHeadsShrinks(seqs[1..], c);
      if i :| 0 <= i < |seqs| && seqs[i] != [] && seqs[i][0] == c {
        if i > 0 {
          assert seqs[1..][i - 1] == seqs[i];
        }
      }
    }
  }

  /** The merge loop: take the candidate, pop it everywhere, continue; None when nothing is legal. */
  function Merge(seqs: seq<seq<string>>): Option<seq<string>>
    decreases TotalLength(seqs)
  {
    if Exhausted(seqs) then Some([])
    else
      match Candidate(seqs, seqs)
      case None => None
      case Some(c) =>
        CandidateIsLegalHead(seqs, seqs);
        PopHeadsShrinks(seqs, c);
        match Merge(PopHeads(seqs, c))
        case None => None
        case Some(rest) => Some([c] + rest)
  }

  /** A linear order that agrees with every sequence. */
  ghost predicate Consistent(seqs: seq<seq<string>>, order: seq<string>) {
    && Distinct(order)
    && forall i | 0 <= i < |seqs| :: Subsequence(seqs[i], order)
  }

  /** Exactly the elements of the sequences. */
  ghost predicate Covers(seqs: seq<seq<string>>, order: seq<string>) {
    forall x :: x in order <==> exists i | 0 <= i < |seqs| :: x in seqs[i]
  }

  /** Popping a legal candidate removes it for good and keeps everything else. */
  lemma {:induction false} PopHeadsElements(seqs: seq<seq<string>>, c: string, i: nat)
    requires Legal(c, seqs) && i < |seqs|
    ensures c !in PopHeads(seqs, c)[i]
    ensures forall x :: x != c ==> (x in PopHeads(seqs, c)[i] <==> x in seqs[i])
    ensures PopHeads(seqs, c)[i] == Without(seqs[i], [c])
  {
    var s := seqs[i];
    assert s in seqs;
    if s != [] {
      assert s == [s[0]] + s[1..];
      WithoutNothing(s[1..], [c]);
    }
  }

  /** The merge result is duplicate-free, has exactly the merged elements, and keeps every sequence. */
  lemma {:induction false} MergeSound(seqs: seq<seq<string>>)
    requires Merge(seqs).Some?
    ensures Consistent(seqs, Merge(seqs).value)
    ensures Covers(seqs, Merge(seqs).value)
    decreases TotalLength(seqs)
  {
    if !Exhausted(seqs) {
      var c := Candidate(seqs, seqs).value;
      CandidateIsLegalHead(seqs, seqs);
      PopHeadsShrinks(seqs, c);
      var rest := PopHeads(seqs, c);
      MergeSound(rest);
      var tail := Merge(rest).value;
      var order := [c] + tail;
      forall i | 0 <= i < |seqs|
        ensures Subsequence(seqs[i], order) && c !in rest[i]
        ensures forall x :: x != c ==> (x in rest[i] <==> x in seqs[i])
      {
        PopHeadsElements(seqs, c, i);
        assert order[1..] == tail;
        assert Subsequence(rest[i], tail);
      }
      assert c !in tail;
      DistinctCons(c, tail);
    } else {
      forall i | 0 <= i < |seqs| ensures seqs[i] == [] { assert seqs[i] in seqs; }
    }
  }

  /** As long as some order is consistent and something is left, some head is legal. */
  lemma {:induction false} ConsistentGivesCandidate(seqs: seq<seq<string>>, order: seq<string>)
    requires Consistent(seqs, order) && !Exhausted(seqs)
    ensures Candidate(seqs, seqs).Some?
    decreases |order|
  {
    var s :| s in seqs && s != [];
    var j :| 0 <= j < |seqs| && seqs[j] == s;
    assert Subsequence(s, order);
    if i :| 0 <= i < |seqs| && order[0] in seqs[i] {
      forall t | t in seqs && t != [] ensures order[0] !in t[1..] {
        var k :| 0 <= k < |seqs| && seqs[k] == t;
        if order[0] in t[1..] { SubsequenceHeadFirst(t, order, order[0]); }
      }
      assert seqs[i] == [seqs[i][0]] + seqs[i][1..];
      assert seqs[i][0] == order[0];
      LegalHeadGivesCandidate(seqs, seqs, i);
    } else {
      forall i | 0 <= i < |seqs| ensures Subsequence(seqs[i], order[1..]) {
        assert Subsequence(seqs[i], order);
        if seqs[i] != [] { assert seqs[i][0] in seqs[i]; }
      }
      ConsistentGivesCandidate(seqs, order[1..]);
    }
  }

  /** The merge finds an order whenever there is one. */
  lemma {:induction false} MergeComplete(seqs: seq<seq<string>>, order: seq<string>)
    requires Consistent(seqs, order)
    ensures Merge(seqs).Some?
    decreases TotalLength(seqs)
  {
    if !Exhausted(seqs) {
      ConsistentGivesCandidate(seqs, order);
      var c := Candidate(seqs, seqs).value;
      CandidateIsLegalHead(seqs, seqs);
      PopHeadsShrinks(seqs, c);
      var rest := PopHeads(seqs, c);
      DistinctWithout(order, [c]);
      forall i | 0 <= i < |rest| ensures Subsequence(rest[i], Without(order, [c])) {
        PopHeadsElements(seqs, c, i);
        assert Subsequence(seqs[i], order);
        if rest[i] != seqs[i] { SubsequenceTail(seqs[i], order); }
        SubsequenceWithout(rest[i], order, [c]);
      }
      MergeComplete(rest, Without(order, [c]));
    }
  }

  /** The merge fails exactly when no linear order agrees with all its sequences. */
  lemma MergeSucceedsExactly(seqs: seq<seq<string>>)
    ensures Merge(seqs).Some? <==> exists order :: Consistent(seqs, order)
  {
    if Merge(seqs).Some? {
      MergeSound(seqs);
    }
    forall order | Consistent(seqs, order) ensures Merge(seqs).Some? {
      MergeComplete(seqs, order);
    }
  }

  // ---------------------------------------------------------------------------
  // Which order the merge picks
  // ---------------------------------------------------------------------------

  /** What is left of the sequences once the classes of `done` have been taken. */
  function Remaining(seqs: seq<seq<string>>, done: seq<string>): (r: seq<seq<string>>)
    ensures |r| == |seqs|
    ensures forall i | 0 <= i < |r| :: r[i] == Without(seqs[i], done)
  {
    if seqs == [] then [] else [Without(seqs[0], done)] + Remaining(seqs[1..], done)
  }

  /** `c` heads some sequence, waits for nothing, and every earlier sequence's head has to wait. */
  ghost predicate LeftmostLegalHead(seqs: seq<seq<string>>, c: string) {
    && Legal(c, seqs)
    && exists j | 0 <= j < |seqs| ::
         && seqs[j] != [] && seqs[j][0] == c
         && forall i | 0 <= i < j :: seqs[i] != [] ==> !Legal(seqs[i][0], seqs)
  }

  /** The class at `k` is the leftmost legal head of what the classes before it left over. */
  ghost predicate LeftmostAt(seqs: seq<seq<string>>, order: seq<string>, k: nat)
    requires k < |order|
  {
    LeftmostLegalHead(Remaining(seqs, order[..k]), order[k])
  }

  ghost predicate TakesLeftmost(seqs: seq<seq<string>>, order: seq<string>) {
    && Exhausted(Remaining(seqs, order))
    && forall k: nat | k < |order| :: LeftmostAt(seqs, order, k)
  }

  lemma {:induction false} CandidateExactly(scan: seq<seq<string>>, all: seq<seq<string>>, c: string)
    ensures Candidate(scan, all) == Some(c) <==>
              Legal(c, all) &&
              exists j | 0 <= j < |scan| ::
                && scan[j] != [] && scan[j][0] == c
                && forall i | 0 <= i < j :: scan[i] != [] ==> !Legal(scan[i][0], all)
  {
    if scan != [] {
      var tail := scan[1..];
      CandidateExactly(tail, all, c);
      if scan[0] != [] && Legal(scan[0][0], all) {
        if Candidate(scan, all) == Some(c) {
          assert scan[0][0] == c;
        }
      } else if Candidate(scan, all) == Some(c) {
        var j :| 0 <= j < |tail| && tail[j] != [] && tail[j][0] == c
                 && forall i | 0 <= i < j :: tail[i] != [] ==> !Legal(tail[i][0], all);
        assert scan[j + 1] == tail[j];
        forall i | 0 <= i < j + 1 ensures scan[i] != [] ==> !Legal(scan[i][0], all) {
          if i > 0 { assert scan[i] == tail[i - 1]; }
        }
      } else if Legal(c, all) {
        forall j | 0 <= j < |scan| && scan[j] != [] && scan[j][0] == c
          ensures exists i | 0 <= i < j :: scan[i] != [] && Legal(scan[i][0], all)
        {
          assert tail[j - 1] == scan[j];
          var i :| 0 <= i < j - 1 && tail[i] != [] && Legal(tail[i][0], all);
          assert scan[i + 1] == tail[i];
        }
      }
    }
  }

  lemma RemainingAfterCandidate(seqs: seq<seq<string>>, c: string, done: seq<string>)
    requires Legal(c, seqs)
    ensures Remaining(PopHeads(seqs, c), done) == Remaining(seqs, [c] + done)
  {
    var a, b := Remaining(PopHeads(seqs, c), done), Remaining(seqs, [c] + done);
    forall i | 0 <= i < |seqs| ensures a[i] == b[i] {
      PopHeadsElements(seqs, c, i);
      WithoutTwice(seqs[i], [c], done);
    }
  }

  lemma RemainingNothingDone(seqs: seq<seq<string>>)
    ensures Remaining(seqs, []) == seqs
  {
    forall i | 0 <= i < |seqs| ensures Remaining(seqs, [])[i] == seqs[i] {
      WithoutNothing(seqs[i], []);
    }
  }

  lemma LeftmostAtFirst(seqs: seq<seq<string>>, order: seq<string>)
    requires order != []
    ensures LeftmostAt(seqs, order, 0) <==> Candidate(seqs, seqs) == Some(order[0])
  {
    assert order[..0] == [];
    RemainingNothingDone(seqs);
    CandidateExactly(seqs, seqs, order[0]);
  }

  lemma LeftmostAtNext(seqs: seq<seq<string>>, c: string, tail: seq<string>, k: nat)
    requires Legal(c, seqs) && k < |tail|
    ensures LeftmostAt(seqs, [c] + tail, k + 1) <==> LeftmostAt(PopHeads(seqs, c), tail, k)
  {
    assert ([c] + tail)[..k + 1] == [c] + tail[..k];
    RemainingAfterCandidate(seqs, c, tail[..k]);
  }

  lemma TakesLeftmostStep(seqs: seq<seq<string>>, c: string, tail: seq<string>)
    requires Candidate(seqs, seqs) == Some(c)
    ensures TakesLeftmost(seqs, [c] + tail) <==> TakesLeftmost(PopHeads(seqs, c), tail)
  {
    var order := [c] + tail;
    CandidateIsLegalHead(seqs, seqs);
    RemainingAfterCandidate(seqs, c, tail);
    LeftmostAtFirst(seqs, order);
    forall k: nat | k < |tail|
      ensures LeftmostAt(seqs, order, k + 1) <==> LeftmostAt(PopHeads(seqs, c), tail, k)
    {
      LeftmostAtNext(seqs, c, tail, k);
    }
    if TakesLeftmost(PopHeads(seqs, c), tail) {
      forall k: nat | k < |order| ensures LeftmostAt(seqs, order, k) {
        if k > 0 { assert LeftmostAt(PopHeads(seqs, c), tail, k - 1); }
      }
    }
    if TakesLeftmost(seqs, order) {
      forall k: nat | k < |tail| ensures LeftmostAt(PopHeads(seqs, c), tail, k) {
        assert LeftmostAt(seqs, order, k + 1);
      }
    }
  }

  lemma MergeOfNothing(seqs: seq<seq<string>>)
    ensures Merge(seqs) == Some([]) <==> Exhausted(seqs)
  {
  }

  lemma SameTail(c: string, a: seq<string>, b: seq<string>)
    ensures [c] + a == [c] + b <==> a == b
  {
    assert ([c] + a)[1..] == a && ([c] + b)[1..] == b;
  }

  lemma {:induction false} MergeFirst(seqs: seq<seq<string>>, c: string, tail: seq<string>)
    requires Candidate(seqs, seqs) == Some(c)
    ensures TotalLength(PopHeads(seqs, c)) < TotalLength(seqs)
    ensures Merge(seqs) == Some([c] + tail) <==> Merge(PopHeads(seqs, c)) == Some(tail)
  {
    CandidateIsLegalHead(seqs, seqs);
    PopHeadsShrinks(seqs, c);
    var i :| 0 <= i < |seqs| && seqs[i] != [] && seqs[i][0] == c;
    assert seqs[i] in seqs && !Exhausted(seqs);
    var rest := Merge(PopHeads(seqs, c));
    assert Merge(seqs) == if rest.None? then None else Some([c] + rest.value);
    if rest.Some? { SameTail(c, rest.value, tail); }
  }

  lemma {:induction false} MergeStartsWithCandidate(seqs: seq<seq<string>>, c: string, tail: seq<string>)
    requires Merge(seqs) == Some([c] + tail)
    ensures Candidate(seqs, seqs) == Some(c)
  {
    assert !Exhausted(seqs);
    var d := Candidate(seqs, seqs).value;
    CandidateIsLegalHead(seqs, seqs);
    PopHeadsShrinks(seqs, d);
    var rest := Merge(PopHeads(seqs, d)).value;
    assert ([d] + rest)[0] == d && ([c] + tail)[0] == c;
  }

  /** Among all consistent orders the merge returns the one that takes the leftmost legal head. */
  lemma {:induction false} MergeTakesLeftmost(seqs: seq<seq<string>>, order: seq<string>)
    ensures Merge(seqs) == Some(order) <==> TakesLeftmost(seqs, order)
    decreases TotalLength(seqs)
  {
    if order == [] {
      RemainingNothingDone(seqs);
      MergeOfNothing(seqs);
    } else {
      var c, tail := order[0], order[1..];
      assert order == [c] + tail;
      LeftmostAtFirst(seqs, order);
      assert TakesLeftmost(seqs, order) ==> LeftmostAt(seqs, order, 0);
      if Merge(seqs) == Some(order) { MergeStartsWithCandidate(seqs, c, tail); }
      if Candidate(seqs, seqs) == Some(c) {
        MergeFirst(seqs, c, tail);
        TakesLeftmostStep(seqs, c, tail);
        MergeTakesLeftmost(PopHeads(seqs, c), tail);
      }
    }
  }

  // ---------------------------------------------------------------------------
  // The loop
  // ---------------------------------------------------------------------------

  function NonEmpty(seqs: seq<seq<string>>): (r: seq<seq<string>>)
    ensures forall s | s in r :: s in seqs && s != []
    ensures forall s | s in seqs :: s != [] ==> s in r
    ensures TotalLength(r) == TotalLength(seqs)
  {
    if seqs == [] then []
    else if seqs[0] == [] then NonEmpty(seqs[1..])
    else [seqs[0]] + NonEmpty(seqs[1..])
  }

  lemma {:induction false} CandidateNonEmpty(scan: seq<seq<string>>, all: seq<seq<string>>)
    ensures Candidate(NonEmpty(scan), NonEmpty(all)) == Candidate(scan, all)
  {
    if scan != [] {
      CandidateNonEmpty(scan[1..], all);
      if scan[0] != [] {
        assert Legal(scan[0][0], NonEmpty(all)) <==> Legal(scan[0][0], all);
        assert NonEmpty(scan)[1..] == NonEmpty(scan[1..]);
      }
    }
  }

  lemma {:induction false} PopHeadsNonEmpty(seqs: seq<seq<string>>, c: string)
    ensures NonEmpty(PopHeads(NonEmpty(seqs), c)) == NonEmpty(PopHeads(seqs, c))
  {
    if seqs != [] {
      PopHeadsNonEmpty(seqs[1..], c);
      assert PopHeads(seqs, c)[1..] == PopHeads(seqs[1..], c);
      if seqs[0] != [] {
        assert NonEmpty(seqs)[1..] == NonEmpty(seqs[1..]);
        assert PopHeads(NonEmpty(seqs), c)[1..] == PopHeads(NonEmpty(seqs[1..]), c);
      }
    }
  }

  /** Dropping exhausted sequences between rounds does not change the merge. */
  lemma {:induction false} MergeNonEmpty(seqs: seq<seq<string>>)
    ensures Merge(NonEmpty(seqs)) == Merge(seqs)
    decreases TotalLength(seqs)
  {
    CandidateNonEmpty(seqs, seqs);
    assert Exhausted(NonEmpty(seqs)) <==> Exhausted(seqs);
    if !Exhausted(seqs) && Candidate(seqs, seqs).Some? {
      var c := Candidate(seqs, seqs).value;
      CandidateIsLegalHead(seqs, seqs);
      PopHeadsShrinks(seqs, c);
      CandidateIsLegalHead(NonEmpty(seqs), NonEmpty(seqs));
      PopHeadsShrinks(NonEmpty(seqs), c);
      MergeNonEmpty(PopHeads(seqs, c));
      MergeNonEmpty(PopHeads(NonEmpty(seqs), c));
      PopHeadsNonEmpty(seqs, c);
    }
  }

  function Prepend(prefix: seq<string>, merged: Option<seq<string>>): Option<seq<string>> {
    match merged
    case None => None
    case Some(rest) => Some(prefix + rest)
  }

  lemma PrependStep(prefix: seq<string>, c: string, merged: Option<seq<string>>)
    ensures Prepend(prefix, Prepend([c], merged)) == Prepend(prefix + [c], merged)
  {
    if merged.Some? { assert prefix + ([c] + merged.value) == prefix + [c] + merged.value; }
  }

  /** The merge loop of the chain reader, appending to an order that already holds the class. */
  method MergeLoop(node: string, input: seq<seq<string>>) returns (r: Option<seq<string>>)
    ensures r == Prepend([node], Merge(input))
  {
    var sequences := input;
    var order := [node];
    while !Exhausted(sequences)
      invariant Prepend(order, Merge(sequences)) == Prepend([node], Merge(input))
      decreases TotalLength(sequences)
    {
      MergeNonEmpty(sequences);
      sequences := NonEmpty(sequences);
      var candidate := Candidate(sequences, sequences);
      if candidate.None? { return None; }
      CandidateIsLegalHead(sequences, sequences);
      PopHeadsShrinks(sequences, candidate.value);
      PrependStep(order, candidate.value, Merge(PopHeads(sequences, candidate.value)));
      order := order + [candidate.value];
      sequences := PopHeads(sequences, candidate.value);
    }
    assert order + [] == order;
    return Some(order);
  }

  // ---------------------------------------------------------------------------
  // The chain
  // ---------------------------------------------------------------------------

  /**
   The linear order of a class and its local ancestors. `stack` holds the classes whose chains are
   being read; meeting one of them again means the recursion never ends.
   */
  function Linearise(h: Hierarchy, c: string, stack: set<string>): Outcome
    requires c in h && stack <= h.Keys
    decreases h.Keys - stack, 0
  {
    if c in stack then Diverges
    else
      var bases := LocalBases(h, h[c]);
      match LineariseEach(h, bases, stack + {c})
      case Failed(outcome) => outcome
      case Chains(orders) =>
        match Merge(orders + [bases])
        case None => Inconsistent(c)
        case Some(rest) => Order([c] + rest)
  }

  function LineariseEach(h: Hierarchy, bases: seq<string>, stack: set<string>): (r: Chains)
    requires stack <= h.Keys
    requires forall b | b in bases :: b in h
    ensures r.Chains? ==> |r.orders| == |bases|
    ensures r.Failed? ==> !r.outcome.Order?
    decreases h.Keys - stack, |bases|
  {
    if bases == [] then Chains([])
    else
      var first := Linearise(h, bases[0], stack);
      if !first.Order? then Failed(first)
      else
        match LineariseEach(h, bases[1..], stack)
        case Failed(outcome) => Failed(outcome)
        case Chains(orders) => Chains([first.classes] + orders)
  }

  function Reverse(s: seq<string>): (r: seq<string>)
    ensures |r| == |s|
    ensures forall i | 0 <= i < |s| :: r[i] == s[|s| - 1 - i]
  {
    if s == [] then [] else Reverse(s[1..]) + [s[0]]
  }

  lemma ReverseTwice(s: seq<string>)
    ensures Reverse(Reverse(s)) == s
  {
    forall i | 0 <= i < |s| ensures Reverse(Reverse(s))[i] == s[i] {
      assert Reverse(s)[|s| - 1 - i] == s[i];
    }
  }

  /** A chain as the reader returns it: from the most distant class to the class itself. */
  function Chain(h: Hierarchy, c: string, stack: set<string>): Outcome
    requires c in h && stack <= h.Keys
  {
    match Linearise(h, c, stack)
    case Order(classes) => Order(Reverse(classes))
    case failure => failure
  }

  /** Reading a chain: the bases' chains first, then the merge. */
  method ClassChain(h: Hierarchy, node: string, stack: set<string>) returns (r: Outcome)
    requires node in h && stack <= h.Keys
    ensures r == Chain(h, node, stack)
    decreases h.Keys - stack, 0
  {
    if node in stack { return Diverges; }
    var bases := LocalBases(h, h[node]);
    var sequences := BaseChains(h, bases, stack + {node});
    if sequences.Failed? { return sequences.outcome; }
    var order := MergeLoop(node, sequences.orders + [bases]);
    match order
    case None => return Inconsistent(node);
    case Some(classes) => return Order(Reverse(classes));
  }

  /** The bases' chains, each turned back, up to the first failure. */
  method BaseChains(h: Hierarchy, bases: seq<string>, stack: set<string>) returns (r: Chains)
    requires stack <= h.Keys
    requires forall b | b in bases :: b in h
    ensures r == LineariseEach(h, bases, stack)
    decreases h.Keys - stack, 1
  {
    var sequences: seq<seq<string>> := [];
    for i := 0 to |bases|
      invariant ReadSoFar(h, bases, stack, i, sequences)
    {
      var chain := ClassChain(h, bases[i], stack);
      if !chain.Order? {
        EachFails(h, bases, stack, i, sequences);
        return Failed(chain);
      }
      ReadOneMore(h, bases, stack, i, sequences);
      sequences := sequences + [Reverse(chain.classes)];
    }
    EachSucceeds(h, bases, stack, sequences);
    return Chains(sequences);
  }

  /** The chains of a list of bases are the chains of its members. */
  lemma {:induction false} EachChain(h: Hierarchy, bases: seq<string>, stack: set<string>, i: nat)
    requires stack <= h.Keys && (forall b | b in bases :: b in h) && LineariseEach(h, bases, stack).Chains?
    requires i < |bases|
    ensures Linearise(h, bases[i], stack) == Order(LineariseEach(h, bases, stack).orders[i])
  {
    if i > 0 { EachChain(h, bases[1..], stack, i - 1); }
  }

  /** The first `n` bases have been read into `orders`. */
  ghost predicate ReadSoFar(h: Hierarchy, bases: seq<string>, stack: set<string>, n: int, orders: seq<seq<string>>)
    requires stack <= h.Keys
    requires forall b | b in bases :: b in h
  {
    && 0 <= n <= |bases| && |orders| == n
    && forall j | 0 <= j < n :: Linearise(h, bases[j], stack) == Order(orders[j])
  }

  lemma {:induction false} ReadOneMore(h: Hierarchy, bases: seq<string>, stack: set<string>, n: int,
                                       orders: seq<seq<string>>)
    requires stack <= h.Keys
    requires forall b | b in bases :: b in h
    requires ReadSoFar(h, bases, stack, n, orders) && n < |bases| && Chain(h, bases[n], stack).Order?
    ensures ReadSoFar(h, bases, stack, n + 1, orders + [Reverse(Chain(h, bases[n], stack).classes)])
  {
    ReverseTwice(Linearise(h, bases[n], stack).classes);
  }

  lemma {:induction false} EachFails(h: Hierarchy, bases: seq<string>, stack: set<string>, n: int,
                                     orders: seq<seq<string>>)
    requires stack <= h.Keys
    requires forall b | b in bases :: b in h
    requires ReadSoFar(h, bases, stack, n, orders) && n < |bases| && !Linearise(h, bases[n], stack).Order?
    ensures LineariseEach(h, bases, stack) == Failed(Linearise(h, bases[n], stack))
  {
    if n > 0 {
      assert Linearise(h, bases[0], stack) == Order(orders[0]);
      forall j | 0 <= j < n - 1 ensures Linearise(h, bases[1..][j], stack) == Order(orders[1..][j]) {
        assert bases[1..][j] == bases[j + 1] && orders[1..][j] == orders[j + 1];
      }
      EachFails(h, bases[1..], stack, n - 1, orders[1..]);
    }
  }

  lemma {:induction false} EachSucceeds(h: Hierarchy, bases: seq<string>, stack: set<string>, orders: seq<seq<string>>)
    requires stack <= h.Keys
    requires forall b | b in bases :: b in h
    requires ReadSoFar(h, bases, stack, |bases|, orders)
    ensures LineariseEach(h, bases, stack) == Chains(orders)
  {
    if bases != [] {
      assert Linearise(h, bases[0], stack) == Order(orders[0]);
      forall j | 0 <= j < |bases| - 1 ensures Linearise(h, bases[1..][j], stack) == Order(orders[1..][j]) {
        assert bases[1..][j] == bases[j + 1] && orders[1..][j] == orders[j + 1];
      }
      EachSucceeds(h, bases[1..], stack, orders[1..]);
      assert orders == [orders[0]] + orders[1..];
    }
  }

  // ---------------------------------------------------------------------------
  // What a chain contains
  // ---------------------------------------------------------------------------

  /** Each class of `p` is a local base of the one before it. */
  ghost predicate IsPath(h: Hierarchy, p: seq<string>) {
    && p != []
    && (forall i | 0 <= i < |p| :: p[i] in h)
    && forall i | 0 <= i < |p| - 1 :: p[i + 1] in LocalBases(h, h[p[i]])
  }

  ghost predicate PathFromTo(h: Hierarchy, p: seq<string>, c: string, a: string) {
    IsPath(h, p) && p[0] == c && p[|p| - 1] == a
  }

  /** `a` is `c` or can be reached from it through local bases. */
  ghost predicate Ancestor(h: Hierarchy, c: string, a: string) {
    exists p :: PathFromTo(h, p, c, a)
  }

  /** `c` can be reached from itself through at least one base. */
  ghost predicate OwnAncestor(h: Hierarchy, c: string)
    requires c in h
  {
    exists b | b in LocalBases(h, h[c]) :: Ancestor(h, b, c)
  }

  lemma AncestorSelf(h: Hierarchy, c: string)
    requires c in h
    ensures Ancestor(h, c, c)
  {
    assert PathFromTo(h, [c], c, c);
  }

  lemma AncestorThroughBase(h: Hierarchy, c: string, b: string, a: string)
    requires c in h && b in LocalBases(h, h[c]) && Ancestor(h, b, a)
    ensures Ancestor(h, c, a)
  {
    var p :| PathFromTo(h, p, b, a);
    assert PathFromTo(h, [c] + p, c, a);
  }

  /** A set closed under local bases holds every ancestor of its members. */
  lemma {:induction false} ClosedHoldsPath(h: Hierarchy, s: seq<string>, p: seq<string>)
    requires IsPath(h, p) && p[0] in s
    requires forall x | x in s :: x in h && forall b | b in LocalBases(h, h[x]) :: b in s
    ensures p[|p| - 1] in s
    decreases |p|
  {
    if |p| > 1 {
      assert p[1] in LocalBases(h, h[p[0]]);
      assert IsPath(h, p[1..]) by {
        forall i | 0 <= i < |p[1..]| - 1 ensures p[1..][i + 1] in LocalBases(h, h[p[1..][i]]) {
          assert p[i + 2] in LocalBases(h, h[p[i + 1]]);
        }
      }
      ClosedHoldsPath(h, s, p[1..]);
    }
  }

  /** The pieces of a successful chain. */
  lemma LineariseParts(h: Hierarchy, c: string, stack: set<string>)
    requires c in h && stack <= h.Keys && Linearise(h, c, stack).Order?
    ensures var bases := LocalBases(h, h[c]);
            var each := LineariseEach(h, bases, stack + {c});
            var r := Linearise(h, c, stack).classes;
            && c !in stack && each.Chains? && r != [] && r[0] == c
            && Consistent(each.orders + [bases], r[1..])
            && Covers(each.orders + [bases], r[1..])
            && Subsequence(bases, r[1..])
            && forall i | 0 <= i < |bases| :: Subsequence(each.orders[i], r[1..])
  {
    var bases := LocalBases(h, h[c]);
    var orders := LineariseEach(h, bases, stack + {c}).orders;
    var seqs := orders + [bases];
    MergeSound(seqs);
    var r := Linearise(h, c, stack).classes;
    assert r[1..] == Merge(seqs).value;
    assert seqs[|orders|] == bases;
    forall i | 0 <= i < |bases| ensures Subsequence(orders[i], r[1..]) { assert seqs[i] == orders[i]; }
  }

  /** A member of a chain: an ancestor that is not being read, with all its local bases. */
  ghost predicate MemberSound(h: Hierarchy, c: string, stack: set<string>, r: seq<string>, x: string) {
    x in h && x !in stack && Ancestor(h, c, x) && forall b | b in LocalBases(h, h[x]) :: b in r
  }

  /** The base whose chain a member of the chain comes from. */
  lemma {:induction false} FromBase(h: Hierarchy, c: string, stack: set<string>, x: string) returns (j: nat)
    requires c in h && stack <= h.Keys && Linearise(h, c, stack).Order? && x in Linearise(h, c, stack).classes[1..]
    ensures var bases := LocalBases(h, h[c]);
            && j < |bases| && Linearise(h, bases[j], stack + {c}).Order?
            && x in Linearise(h, bases[j], stack + {c}).classes
            && Subsequence(Linearise(h, bases[j], stack + {c}).classes, Linearise(h, c, stack).classes[1..])
  {
    LineariseParts(h, c, stack);
    var bases := LocalBases(h, h[c]);
    var orders := LineariseEach(h, bases, stack + {c}).orders;
    var seqs := orders + [bases];
    var i :| 0 <= i < |seqs| && x in seqs[i];
    if i < |orders| {
      j := i;
      EachChain(h, bases, stack + {c}, j);
    } else {
      j :| j < |bases| && bases[j] == x;
      EachChain(h, bases, stack + {c}, j);
      LineariseParts(h, bases[j], stack + {c});
    }
  }

  /** What the base's chain says of its member, the class's chain says too. */
  lemma MemberThroughBase(h: Hierarchy, c: string, b: string, stack: set<string>, q: seq<string>, r: seq<string>,
                          x: string)
    requires c in h && b in LocalBases(h, h[c]) && MemberSound(h, b, stack + {c}, q, x)
    requires r != [] && Subsequence(q, r[1..])
    ensures MemberSound(h, c, stack, r, x) && x != c
  {
    AncestorThroughBase(h, c, b, x);
    SubsequenceElements(q, r[1..]);
  }

  /** A chain is duplicate-free, avoids the classes being read, and is closed under local bases. */
  lemma {:induction false} LineariseSound(h: Hierarchy, c: string, stack: set<string>)
    requires c in h && stack <= h.Keys && Linearise(h, c, stack).Order?
    ensures var r := Linearise(h, c, stack).classes;
            Distinct(r) && forall x | x in r :: MemberSound(h, c, stack, r, x)
    decreases h.Keys - stack
  {
    LineariseParts(h, c, stack);
    AncestorSelf(h, c);
    var bases, r := LocalBases(h, h[c]), Linearise(h, c, stack).classes;
    SubsequenceElements(bases, r[1..]);
    forall x | x in r[1..] ensures MemberSound(h, c, stack, r, x) && x != c {
      var j := FromBase(h, c, stack, x);
      LineariseSound(h, bases[j], stack + {c});
      var q := Linearise(h, bases[j], stack + {c}).classes;
      assert MemberSound(h, bases[j], stack + {c}, q, x);
      MemberThroughBase(h, c, bases[j], stack, q, r, x);
    }
    assert r == [c] + r[1..];
    DistinctCons(c, r[1..]);
  }

  /** A chain does not depend on which other classes are being read, as long as it meets none. */
  lemma {:induction false} StackIrrelevant(h: Hierarchy, c: string, stack: set<string>, other: set<string>)
    requires c in h && stack <= h.Keys && other <= h.Keys && Linearise(h, c, stack).Order?
    requires forall x | x in Linearise(h, c, stack).classes :: x !in other
    ensures Linearise(h, c, other) == Linearise(h, c, stack)
    decreases h.Keys - stack
  {
    LineariseParts(h, c, stack);
    var bases := LocalBases(h, h[c]);
    var orders := LineariseEach(h, bases, stack + {c}).orders;
    var r := Linearise(h, c, stack).classes;
    assert r[0] in r;
    forall j | 0 <= j < |bases| ensures Linearise(h, bases[j], other + {c}) == Order(orders[j]) {
      EachChain(h, bases, stack + {c}, j);
      LineariseSound(h, bases[j], stack + {c});
      SubsequenceElements(orders[j], r[1..]);
      StackIrrelevant(h, bases[j], stack + {c}, other + {c});
    }
    EachSucceeds(h, bases, other + {c}, orders);
  }

  /** A chain holds exactly the class and its local ancestors, the class first. */
  lemma LineariseExactlyAncestors(h: Hierarchy, c: string)
    requires c in h && Linearise(h, c, {}).Order?
    ensures var r := Linearise(h, c, {}).classes;
            && r != [] && r[0] == c && Distinct(r)
            && forall x :: x in r <==> Ancestor(h, c, x)
  {
    LineariseParts(h, c, {});
    LineariseSound(h, c, {});
    var r := Linearise(h, c, {}).classes;
    forall x | Ancestor(h, c, x) ensures x in r {
      var p :| PathFromTo(h, p, c, x);
      assert r[0] in r;
      ClosedHoldsPath(h, r, p);
    }
  }

  /** The bases of a class with a chain have chains too, whatever is being read. */
  lemma BaseHasChain(h: Hierarchy, c: string, j: nat)
    requires c in h && Linearise(h, c, {}).Order? && j < |LocalBases(h, h[c])|
    ensures var b := LocalBases(h, h[c])[j];
            && Linearise(h, b, {}).Order?
            && Linearise(h, b, {c}) == Linearise(h, b, {})
            && c !in Linearise(h, b, {}).classes
            && Subsequence(Linearise(h, b, {}).classes, Linearise(h, c, {}).classes)
  {
    LineariseParts(h, c, {});
    var bases := LocalBases(h, h[c]);
    assert {} + {c} == {c};
    var orders := LineariseEach(h, bases, {c}).orders;
    EachChain(h, bases, {c}, j);
    LineariseSound(h, bases[j], {c});
    StackIrrelevant(h, bases[j], {c}, {});
    SubsequenceOfTail(orders[j], Linearise(h, c, {}).classes);
  }

  /**
   Monotonicity: the chain of every ancestor, and every ancestor's own base list, survive in order
   in the chain of the class.
   */
  lemma {:induction false} AncestorChainsKept(h: Hierarchy, p: seq<string>)
    requires IsPath(h, p) && Linearise(h, p[0], {}).Order?
    ensures var a := p[|p| - 1];
            && Linearise(h, a, {}).Order?
            && Subsequence(Linearise(h, a, {}).classes, Linearise(h, p[0], {}).classes)
            && Subsequence(LocalBases(h, h[a]), Linearise(h, p[0], {}).classes)
    decreases |p|
  {
    var r := Linearise(h, p[0], {}).classes;
    if |p| == 1 {
      SubsequenceReflexive(r);
      LineariseParts(h, p[0], {});
      SubsequenceOfTail(LocalBases(h, h[p[0]]), r);
    } else {
      assert p[0 + 1] in LocalBases(h, h[p[0]]);
      var j :| 0 <= j < |LocalBases(h, h[p[0]])| && LocalBases(h, h[p[0]])[j] == p[1];
      BaseHasChain(h, p[0], j);
      assert IsPath(h, p[1..]) by {
        forall i | 0 <= i < |p[1..]| - 1 ensures p[1..][i + 1] in LocalBases(h, h[p[1..][i]]) {
          assert p[i + 1 + 1] in LocalBases(h, h[p[i + 1]]);
        }
      }
      AncestorChainsKept(h, p[1..]);
      var a, b := p[|p| - 1], Linearise(h, p[1], {}).classes;
      SubsequenceTransitive(Linearise(h, a, {}).classes, b, r);
      SubsequenceTransitive(LocalBases(h, h[a]), b, r);
    }
  }

  lemma ChainKeepsEveryAncestor(h: Hierarchy, c: string, a: string)
    requires c in h && Linearise(h, c, {}).Order? && Ancestor(h, c, a)
    ensures a in h && Linearise(h, a, {}).Order?
    ensures Subsequence(Linearise(h, a, {}).classes, Linearise(h, c, {}).classes)
    ensures Subsequence(LocalBases(h, h[a]), Linearise(h, c, {}).classes)
  {
    var p :| PathFromTo(h, p, c, a);
    AncestorChainsKept(h, p);
  }

  // ---------------------------------------------------------------------------
  // When a chain exists
  // ---------------------------------------------------------------------------

  /** Every local base has a chain of its own. */
  ghost predicate BasesHaveChains(h: Hierarchy, c: string)
    requires c in h
  {
    forall b | b in LocalBases(h, h[c]) :: Linearise(h, b, {}).Order?
  }

  /** The sequences a class's chain has to agree with: its bases' chains and its base list. */
  ghost function Constraints(h: Hierarchy, c: string): seq<seq<string>>
    requires c in h && BasesHaveChains(h, c)
  {
    var bases := LocalBases(h, h[c]);
    seq(|bases|, i requires 0 <= i < |bases| => Linearise(h, bases[i], {}).classes) + [bases]
  }

  /**
   A class has a chain exactly when it is not its own ancestor, every base has a chain, and some
   linear order agrees with the bases' chains and the base list.
   */
  lemma ChainExistsExactly(h: Hierarchy, c: string)
    requires c in h
    ensures Linearise(h, c, {}).Order? <==>
              && !OwnAncestor(h, c)
              && BasesHaveChains(h, c)
              && exists order :: Consistent(Constraints(h, c), order)
  {
    var bases := LocalBases(h, h[c]);
    if Linearise(h, c, {}).Order? {
      forall b | b in bases ensures Linearise(h, b, {}).Order? && !Ancestor(h, b, c) {
        var j :| 0 <= j < |bases| && bases[j] == b;
        BaseHasChain(h, c, j);
        LineariseExactlyAncestors(h, b);
      }
      SameConstraints(h, c);
      LineariseParts(h, c, {});
    }
    if !OwnAncestor(h, c) && BasesHaveChains(h, c) {
      SameConstraints(h, c);
      var orders := LineariseEach(h, bases, {c}).orders;
      assert {} + {c} == {c};
      MergeSucceedsExactly(orders + [bases]);
    }
  }

  /** Seen from the class itself, its bases read the same chains as on their own. */
  lemma SameConstraints(h: Hierarchy, c: string)
    requires c in h && !OwnAncestor(h, c) && BasesHaveChains(h, c)
    ensures LineariseEach(h, LocalBases(h, h[c]), {c}).Chains?
    ensures LineariseEach(h, LocalBases(h, h[c]), {c}).orders + [LocalBases(h, h[c])] == Constraints(h, c)
  {
    var bases := LocalBases(h, h[c]);
    var orders := Constraints(h, c)[..|bases|];
    forall j | 0 <= j < |bases| ensures Linearise(h, bases[j], {c}) == Order(orders[j]) {
      assert bases[j] in bases;
      LineariseExactlyAncestors(h, bases[j]);
      StackIrrelevant(h, bases[j], {}, {c});
    }
    EachSucceeds(h, bases, {c}, orders);
  }

  /** A class's bases stand in its order as they stand in its base list, so none is listed twice. */
  lemma BasesKeepOrder(h: Hierarchy, c: string, i: nat, j: nat)
    requires c in h && Linearise(h, c, {}).Order? && i < j < |h[c]|
    requires h[c][i].Name? && h[c][j].Name? && h[c][i].id in h && h[c][j].id in h
    ensures var r := Linearise(h, c, {}).classes;
            h[c][i].id != h[c][j].id && exists k, l :: 0 < k < l < |r| && r[k] == h[c][i].id && r[l] == h[c][j].id
  {
    var r := Linearise(h, c, {}).classes;
    LineariseParts(h, c, {});
    LineariseSound(h, c, {});
    var k, l := BasesInOrder(h, h[c], i, j);
    var k', l' := SubsequencePair(LocalBases(h, h[c]), r[1..], k, l);
    assert r[k' + 1] == h[c][i].id && r[l' + 1] == h[c][j].id;
  }

  /** The outcome that a merge gives the class. */
  function OutcomeOf(c: string, merged: Option<seq<string>>): Outcome {
    match merged case None => Inconsistent(c) case Some(rest) => Order([c] + rest)
  }

  lemma OutcomeIs(c: string, merged: Option<seq<string>>, r: seq<string>)
    ensures OutcomeOf(c, merged) == Order(r) <==> r != [] && r[0] == c && merged == Some(r[1..])
  {
    if r != [] { assert r == [r[0]] + r[1..]; }
  }

  lemma MergedOrder(h: Hierarchy, c: string)
    requires c in h && !OwnAncestor(h, c) && BasesHaveChains(h, c)
    ensures Linearise(h, c, {}) == OutcomeOf(c, Merge(Constraints(h, c)))
  {
    SameConstraints(h, c);
    assert {} + {c} == {c};
  }

  /**
   The order of a class, exactly: its bases have orders and do not lead back to it, and after the class
   itself comes what takes the leftmost legal head of the bases' orders and the base list.
   */
  lemma OrderExactly(h: Hierarchy, c: string, r: seq<string>)
    requires c in h
    ensures Linearise(h, c, {}) == Order(r) <==>
              && !OwnAncestor(h, c) && BasesHaveChains(h, c)
              && r != [] && r[0] == c && TakesLeftmost(Constraints(h, c), r[1..])
  {
    if !OwnAncestor(h, c) && BasesHaveChains(h, c) {
      MergedOrder(h, c);
      OutcomeIs(c, Merge(Constraints(h, c)), r);
      if r != [] { MergeTakesLeftmost(Constraints(h, c), r[1..]); }
    } else {
      ChainExistsExactly(h, c);
    }
  }

  /** A path that ends where it has been holds a class that inherits from itself. */
  lemma PathCloses(h: Hierarchy, p: seq<string>, i: nat)
    requires IsPath(h, p) && i < |p| - 1 && p[i] == p[|p| - 1]
    ensures p[i] in h && Ancestor(h, p[0], p[i]) && OwnAncestor(h, p[i])
  {
    assert p[i + 1] in LocalBases(h, h[p[i]]);
    assert PathFromTo(h, p[..i + 1], p[0], p[i]);
    var q := p[i + 1..];
    forall k | 0 <= k < |q| - 1 ensures q[k + 1] in LocalBases(h, h[q[k]]) {
      assert p[i + 1 + k + 1] in LocalBases(h, h[p[i + 1 + k]]);
    }
    assert PathFromTo(h, q, p[i + 1], p[i]);
  }

  lemma ExtendedPath(h: Hierarchy, p: seq<string>, b: string)
    requires IsPath(h, p) && b in h && b in LocalBases(h, h[p[|p| - 1]])
    ensures var longer := p + [b];
            && IsPath(h, longer) && longer[0] == p[0] && longer[|longer| - 1] == b
            && Elements(longer[..|longer| - 1]) == Elements(p[..|p| - 1]) + {p[|p| - 1]}
  {
    var longer := p + [b];
    assert longer[..|longer| - 1] == p == p[..|p| - 1] + [p[|p| - 1]];
  }

  // ---------------------------------------------------------------------------
  // When reading never ends
  // ---------------------------------------------------------------------------

  /** Reading `c` goes on to its base number `j`, after the chains of the bases before it. */
  ghost predicate ReadsAt(h: Hierarchy, c: string, b: string, j: int)
    requires c in h
  {
    var bases := LocalBases(h, h[c]);
    0 <= j < |bases| && bases[j] == b && forall i | 0 <= i < j :: Linearise(h, bases[i], {}).Order?
  }

  ghost predicate Reads(h: Hierarchy, c: string, b: string)
    requires c in h
  {
    exists j :: ReadsAt(h, c, b, j)
  }

  /** A path that reading takes: each step is a base whose predecessors in the base list have chains. */
  ghost predicate ReadPath(h: Hierarchy, p: seq<string>) {
    IsPath(h, p) && forall i: nat | i < |p| - 1 :: ReadStep(h, p, i)
  }

  ghost predicate ReadStep(h: Hierarchy, p: seq<string>, i: nat)
    requires IsPath(h, p) && i < |p| - 1
  {
    Reads(h, p[i], p[i + 1])
  }

  /** The path comes back to a class it has been at. */
  ghost predicate Returns(p: seq<string>) { p != [] && p[|p| - 1] in p[..|p| - 1] }

  lemma {:induction false} EachOfRest(h: Hierarchy, bases: seq<string>, stack: set<string>)
    requires stack <= h.Keys && (forall b | b in bases :: b in h) && LineariseEach(h, bases, stack).Failed?
    requires bases != [] && Linearise(h, bases[0], stack).Order?
    ensures LineariseEach(h, bases[1..], stack) == LineariseEach(h, bases, stack)
  {
  }

  /** The first base that has no chain is the one whose outcome is reported. */
  lemma {:induction false} FirstFailure(h: Hierarchy, bases: seq<string>, stack: set<string>) returns (j: nat)
    requires stack <= h.Keys && (forall b | b in bases :: b in h) && LineariseEach(h, bases, stack).Failed?
    ensures j < |bases| && Linearise(h, bases[j], stack) == LineariseEach(h, bases, stack).outcome
    ensures !Linearise(h, bases[j], stack).Order? && forall i | 0 <= i < j :: Linearise(h, bases[i], stack).Order?
  {
    if !Linearise(h, bases[0], stack).Order? {
      j := 0;
    } else {
      var rest := bases[1..];
      EachOfRest(h, bases, stack);
      var k := FirstFailure(h, rest, stack);
      j := k + 1;
      forall i | 0 <= i < j ensures Linearise(h, bases[i], stack).Order? {
        if i > 0 { assert bases[i] == rest[i - 1]; }
      }
    }
  }

  lemma DivergingBase(h: Hierarchy, c: string, stack: set<string>) returns (b: string)
    requires c in h && stack <= h.Keys && c !in stack && Linearise(h, c, stack).Diverges?
    ensures b in LocalBases(h, h[c]) && b in h && Linearise(h, b, stack + {c}).Diverges? && Reads(h, c, b)
  {
    var bases := LocalBases(h, h[c]);
    var j := FirstFailure(h, bases, stack + {c});
    b := bases[j];
    forall i | 0 <= i < j ensures Linearise(h, bases[i], {}).Order? { StackIrrelevant(h, bases[i], stack + {c}, {}); }
    assert ReadsAt(h, c, b, j);
  }

  lemma {:induction false} ExtendedReadPath(h: Hierarchy, p: seq<string>, b: string)
    requires ReadPath(h, p) && b in h && b in LocalBases(h, h[p[|p| - 1]]) && Reads(h, p[|p| - 1], b)
    ensures var longer := p + [b];
            && ReadPath(h, longer) && longer[0] == p[0] && longer[|longer| - 1] == b
            && Elements(longer[..|longer| - 1]) == Elements(p[..|p| - 1]) + {p[|p| - 1]}
  {
    ExtendedPath(h, p, b);
    var longer := p + [b];
    forall i: nat | i < |longer| - 1 ensures ReadStep(h, longer, i) {
      if i < |p| - 1 { assert ReadStep(h, p, i); }
    }
  }

  /** Endless reading follows a path that comes back. */
  lemma {:induction false} DivergesOnPath(h: Hierarchy, p: seq<string>) returns (q: seq<string>)
    requires ReadPath(h, p)
    requires var c := p[|p| - 1]; Linearise(h, c, Elements(p[..|p| - 1])).Diverges?
    ensures ReadPath(h, q) && q[0] == p[0] && Returns(q)
    decreases h.Keys - Elements(p[..|p| - 1])
  {
    var c := p[|p| - 1];
    var stack := Elements(p[..|p| - 1]);
    if c in stack {
      q := p;
    } else {
      var b := DivergingBase(h, c, stack);
      ExtendedReadPath(h, p, b);
      q := DivergesOnPath(h, p + [b]);
    }
  }

  /** Reading a chain never ends only if some ancestor is its own ancestor; if it ends well, none is. */
  lemma DivergesOnlyOnCycles(h: Hierarchy, c: string)
    requires c in h
    ensures Linearise(h, c, {}).Diverges? ==>
              exists a :: a in h && Ancestor(h, c, a) && OwnAncestor(h, a)
    ensures Linearise(h, c, {}).Order? ==>
              forall a :: a in h && Ancestor(h, c, a) ==> !OwnAncestor(h, a)
  {
    if Linearise(h, c, {}).Diverges? {
      assert [c][..0] == [];
      assert Elements<string>([]) == {};
      var q := DivergesOnPath(h, [c]);
      var i: nat :| i < |q| - 1 && q[i] == q[|q| - 1];
      PathCloses(h, q, i);
    }
    if Linearise(h, c, {}).Order? {
      forall a | a in h && Ancestor(h, c, a) ensures !OwnAncestor(h, a) {
        ChainKeepsEveryAncestor(h, c, a);
        ChainExistsExactly(h, a);
      }
    }
  }

  /** A base from which the path's own class `p[m]` can be reached puts that class on a cycle. */
  lemma BackToPath(h: Hierarchy, p: seq<string>, m: nat, b: string)
    requires IsPath(h, p) && m < |p| && b in LocalBases(h, h[p[|p| - 1]]) && Ancestor(h, b, p[m])
    ensures OwnAncestor(h, p[m])
  {
    var q :| PathFromTo(h, q, b, p[m]);
    var up := p[m..];
    var r := up + q;
    forall i | 0 <= i < |r| - 1 ensures r[i + 1] in LocalBases(h, h[r[i]]) {
      if i < |up| - 1 {
        assert p[m + i + 1] in LocalBases(h, h[p[m + i]]);
      } else if i >= |up| {
        assert q[i - |up| + 1] in LocalBases(h, h[q[i - |up|]]);
      }
    }
    assert r[0 + 1] in LocalBases(h, h[r[0]]);
    var tail := r[1..];
    forall i | 0 <= i < |tail| - 1 ensures tail[i + 1] in LocalBases(h, h[tail[i]]) {
      assert r[i + 1 + 1] in LocalBases(h, h[r[i + 1]]);
    }
    assert PathFromTo(h, tail, r[1], p[m]);
  }

  /** Seen from the end of a path, a base with a chain reads the same chain as on its own. */
  lemma ChainOnPath(h: Hierarchy, p: seq<string>, b: string)
    requires IsPath(h, p) && b in LocalBases(h, h[p[|p| - 1]]) && Linearise(h, b, {}).Order?
    ensures Elements(p) <= h.Keys && Linearise(h, b, Elements(p)) == Linearise(h, b, {})
  {
    LineariseExactlyAncestors(h, b);
    DivergesOnlyOnCycles(h, b);
    forall x | x in Linearise(h, b, {}).classes ensures x !in Elements(p) {
      if x in p {
        var m: nat :| m < |p| && p[m] == x;
        BackToPath(h, p, m, b);
      }
    }
    StackIrrelevant(h, b, {}, Elements(p));
  }

  lemma PathPrefix(h: Hierarchy, p: seq<string>, k: nat)
    requires IsPath(h, p) && k < |p|
    ensures IsPath(h, p[..k + 1]) && p[..k + 1][k] == p[k] && Elements(p[..k + 1]) == Elements(p[..k]) + {p[k]}
  {
    var q := p[..k + 1];
    assert q == p[..k] + [p[k]];
    forall i | 0 <= i < |q| - 1 ensures q[i + 1] in LocalBases(h, h[q[i]]) {
      assert p[i + 1] in LocalBases(h, h[p[i]]);
    }
  }

  lemma FailsAt(h: Hierarchy, p: seq<string>, b: string, j: int)
    requires IsPath(h, p) && ReadsAt(h, p[|p| - 1], b, j) && Elements(p) <= h.Keys
    requires b in h && !Linearise(h, b, Elements(p)).Order?
    ensures LineariseEach(h, LocalBases(h, h[p[|p| - 1]]), Elements(p)) == Failed(Linearise(h, b, Elements(p)))
  {
    var bases, stack := LocalBases(h, h[p[|p| - 1]]), Elements(p);
    var orders := seq(j, i requires 0 <= i < j => Linearise(h, bases[i], {}).classes);
    forall i | 0 <= i < j ensures Linearise(h, bases[i], stack) == Order(orders[i]) {
      assert bases[i] in bases;
      ChainOnPath(h, p, bases[i]);
    }
    EachFails(h, bases, stack, j, orders);
  }

  lemma {:induction false} BaseDiverges(h: Hierarchy, p: seq<string>, b: string)
    requires IsPath(h, p) && b in h && Elements(p) <= h.Keys && Reads(h, p[|p| - 1], b)
    requires p[|p| - 1] !in p[..|p| - 1] && Linearise(h, b, Elements(p)).Diverges?
    ensures Elements(p[..|p| - 1]) <= h.Keys && Linearise(h, p[|p| - 1], Elements(p[..|p| - 1])).Diverges?
  {
    var c, stack := p[|p| - 1], Elements(p[..|p| - 1]);
    assert Elements(p) == stack + {c} by { assert p == p[..|p| - 1] + [c]; }
    var j :| ReadsAt(h, c, b, j);
    FailsAt(h, p, b, j);
    EachDiverges(h, c, stack);
  }

  lemma {:induction false} EachDiverges(h: Hierarchy, c: string, stack: set<string>)
    requires c in h && stack + {c} <= h.Keys && c !in stack
    requires LineariseEach(h, LocalBases(h, h[c]), stack + {c}) == Failed(Diverges)
    ensures Linearise(h, c, stack).Diverges?
  {
  }

  /** Reading the class at `k`, after those before it, never ends. */
  ghost predicate Endless(h: Hierarchy, p: seq<string>, k: nat)
    requires IsPath(h, p) && k < |p|
  {
    Elements(p[..k]) <= h.Keys && Linearise(h, p[k], Elements(p[..k])).Diverges?
  }

  lemma {:induction false} ReturnIsEndless(h: Hierarchy, p: seq<string>, k: nat)
    requires IsPath(h, p) && k < |p| && p[k] in p[..k]
    ensures Endless(h, p, k)
  {
    assert forall x | x in p[..k] :: x in p;
  }

  lemma {:induction false} PrefixIsEndless(h: Hierarchy, p: seq<string>, k: nat)
    requires ReadPath(h, p) && k < |p| - 1 && p[k] !in p[..k] && Endless(h, p, k + 1)
    ensures Endless(h, p, k)
  {
    PathPrefix(h, p, k);
    assert ReadStep(h, p, k);
    var q := p[..k + 1];
    assert q[..|q| - 1] == p[..k];
    BaseDiverges(h, q, p[k + 1]);
  }

  /** One step up a path that comes back. */
  lemma {:induction false} EndlessStep(h: Hierarchy, p: seq<string>, k: nat)
    requires ReadPath(h, p) && k < |p| - 1 && Endless(h, p, k + 1)
    ensures Endless(h, p, k)
  {
    if p[k] in p[..k] { ReturnIsEndless(h, p, k); } else { PrefixIsEndless(h, p, k); }
  }

  /** Reading along a path that comes back never ends. */
  lemma ReturningPathDiverges(h: Hierarchy, p: seq<string>)
    requires ReadPath(h, p) && Returns(p)
    ensures Endless(h, p, 0)
  {
    var k := |p| - 1;
    ReturnIsEndless(h, p, k);
    while k > 0
      invariant 0 <= k < |p| && Endless(h, p, k)
    {
      EndlessStep(h, p, k - 1);
      k := k - 1;
    }
  }

  /**
   Reading a chain never ends if and only if there is a path from the class that comes back to itself
   and at each step of which the bases listed before the next class have chains.
   */
  lemma DivergesExactly(h: Hierarchy, c: string)
    requires c in h
    ensures Linearise(h, c, {}).Diverges? <==> exists p :: ReadPath(h, p) && p[0] == c && Returns(p)
  {
    assert Elements<string>([]) == {};
    if Linearise(h, c, {}).Diverges? {
      assert [c][..0] == [];
      var q := DivergesOnPath(h, [c]);
    }
    if p :| ReadPath(h, p) && p[0] == c && Returns(p) {
      ReturningPathDiverges(h, p);
      assert p[..0] == [];
    }
  }

  /** No class among the ancestors inherits from itself. */
  ghost predicate Acyclic(h: Hierarchy, c: string) {
    forall a | a in h && Ancestor(h, c, a) :: !OwnAncestor(h, a)
  }

  /** If all bases have chains that avoid the class, no ancestor is on a cycle. */
  lemma BasesAcyclic(h: Hierarchy, c: string)
    requires c in h && BasesHaveChains(h, c) && !OwnAncestor(h, c)
    ensures Acyclic(h, c)
  {
    forall a | a in h && Ancestor(h, c, a) ensures !OwnAncestor(h, a) {
      var p :| PathFromTo(h, p, c, a);
      if |p| > 1 {
        var q := p[1..];
        assert p[0 + 1] in LocalBases(h, h[p[0]]);
        forall i | 0 <= i < |q| - 1 ensures q[i + 1] in LocalBases(h, h[q[i]]) {
          assert p[i + 1 + 1] in LocalBases(h, h[p[i + 1]]);
        }
        assert PathFromTo(h, q, p[1], a);
        DivergesOnlyOnCycles(h, p[1]);
      }
    }
  }

  /** An inconsistency is reported for a class without cycles above it that has no chain. */
  lemma {:induction false} InconsistentAncestor(h: Hierarchy, c: string, stack: set<string>) returns (a: string)
    requires c in h && stack <= h.Keys && Linearise(h, c, stack).Inconsistent?
    ensures a in h && Ancestor(h, c, a) && Acyclic(h, a) && !Linearise(h, a, {}).Order?
    decreases h.Keys - stack
  {
    var bases := LocalBases(h, h[c]);
    if LineariseEach(h, bases, stack + {c}).Failed? {
      var j := FirstFailure(h, bases, stack + {c});
      a := InconsistentAncestor(h, bases[j], stack + {c});
      AncestorThroughBase(h, c, bases[j], a);
    } else {
      a := c;
      AncestorSelf(h, c);
      MergeFails(h, c, stack);
    }
  }

  lemma MergeFails(h: Hierarchy, c: string, stack: set<string>)
    requires c in h && stack <= h.Keys && Linearise(h, c, stack).Inconsistent?
    requires LineariseEach(h, LocalBases(h, h[c]), stack + {c}).Chains?
    ensures Acyclic(h, c) && !Linearise(h, c, {}).Order?
  {
    var bases := LocalBases(h, h[c]);
    var orders := LineariseEach(h, bases, stack + {c}).orders;
    forall j | 0 <= j < |bases|
      ensures Linearise(h, bases[j], {}) == Linearise(h, bases[j], {c}) == Order(orders[j]) && !Ancestor(h, bases[j], c)
    {
      EachChain(h, bases, stack + {c}, j);
      LineariseSound(h, bases[j], stack + {c});
      StackIrrelevant(h, bases[j], stack + {c}, {});
      StackIrrelevant(h, bases[j], stack + {c}, {c});
      LineariseExactlyAncestors(h, bases[j]);
    }
    EachSucceeds(h, bases, {c}, orders);
    assert {} + {c} == {c};
    forall b | b in bases ensures Linearise(h, b, {}).Order? && !Ancestor(h, b, c) {
      var j :| 0 <= j < |bases| && bases[j] == b;
    }
    BasesAcyclic(h, c);
  }

  /** Where every class without cycles above it has a chain, reading never ends exactly on cycles. */
  lemma DivergesOnCyclesExactly(h: Hierarchy, c: string)
    requires c in h
    requires forall a | a in h && Ancestor(h, c, a) && Acyclic(h, a) :: Linearise(h, a, {}).Order?
    ensures Linearise(h, c, {}).Diverges? <==> !Acyclic(h, c)
  {
    DivergesOnlyOnCycles(h, c);
    if Linearise(h, c, {}).Inconsistent? {
      var a := InconsistentAncestor(h, c, {});
    }
  }

  /** A test class named like the imported class it extends is its own base in the module's table. */
  lemma SelfBaseDiverges()
    ensures Linearise(map["T" := [Name("T")]], "T", {}).Diverges?
  {
    var h: Hierarchy := map["T" := [Name("T")]];
    assert LocalBases(h, [Name("T")]) == ["T"] + LocalBases(h, [Name("T")][1..]);
    var p := ["T", "T"];
    assert ReadsAt(h, "T", "T", 0);
    assert ReadStep(h, p, 0);
    assert ReadPath(h, p) && Returns(p);
    DivergesExactly(h, "T");
  }
}
