/** Notions about finite sequences that several components share. */
module Sequences {

  datatype Option<+T> = None | Some(value: T)

  /** No element occurs twice. */
  ghost predicate Distinct<T>(s: seq<T>) {
    forall i, j :: 0 <= i < j < |s| ==> s[i] != s[j]
  }

  /** The elements of a sequence. */
  function Elements<T>(s: seq<T>): set<T> {
    set x | x in s
  }

  /** `a` can be obtained from `b` by leaving elements out. */
  predicate Subsequence<T(==)>(a: seq<T>, b: seq<T>) {
    a == [] ||
    (b != [] && if a[0] == b[0] then Subsequence(a[1..], b[1..]) else Subsequence(a, b[1..]))
  }

  /** `s` with every occurrence of an element of `gone` left out. */
  function Without<T(==)>(s: seq<T>, gone: seq<T>): (r: seq<T>)
    ensures forall x | x in r :: x in s && x !in gone
    ensures forall x | x in s :: x !in gone ==> x in r
  {
    if s == [] then []
    else if s[0] in gone then Without(s[1..], gone)
    else [s[0]] + Without(s[1..], gone)
  }

  lemma WithoutNothing<T>(s: seq<T>, gone: seq<T>)
    requires forall x :: x in s ==> x !in gone
    ensures Without(s, gone) == s
  {
    if s != [] {
      assert s[0] in s;
      WithoutNothing(s[1..], gone);
    }
  }

  lemma {:induction false} WithoutTwice<T>(s: seq<T>, first: seq<T>, second: seq<T>)
    ensures Without(Without(s, first), second) == Without(s, first + second)
  {
    if s != [] {
      WithoutTwice(s[1..], first, second);
      if s[0] !in first {
        var rest := Without(s[1..], first);
        assert Without(s, first) == [s[0]] + rest;
        assert ([s[0]] + rest)[1..] == rest;
      }
    }
  }

  /** A subsequence of a tail is a subsequence of the whole. */
  lemma {:induction false} SubsequenceOfTail<T>(a: seq<T>, b: seq<T>)
    requires b != [] && Subsequence(a, b[1..])
    ensures Subsequence(a, b)
    decreases |b|, 0
  {
    if a != [] && a[0] == b[0] {
      SubsequenceTail(a, b[1..]);
    }
  }

  /** Dropping the first element keeps a subsequence. */
  lemma {:induction false} SubsequenceTail<T>(a: seq<T>, b: seq<T>)
    requires a != [] && Subsequence(a, b)
    ensures Subsequence(a[1..], b)
    decreases |b|, 1
  {
    if a[0] == b[0] {
      SubsequenceOfTail(a[1..], b);
    } else {
      SubsequenceTail(a, b[1..]);
      SubsequenceOfTail(a[1..], b);
    }
  }

  lemma {:induction false} SubsequenceReflexive<T>(a: seq<T>)
    ensures Subsequence(a, a)
  {
    if a != [] { SubsequenceReflexive(a[1..]); }
  }

  lemma {:induction false} SubsequenceTransitive<T>(a: seq<T>, b: seq<T>, c: seq<T>)
    requires Subsequence(a, b) && Subsequence(b, c)
    ensures Subsequence(a, c)
    decreases |b| + |c|
  {
    if a != [] {
      if b[0] == c[0] {
        if a[0] == b[0] {
          SubsequenceTransitive(a[1..], b[1..], c[1..]);
        } else {
          SubsequenceTransitive(a, b[1..], c[1..]);
          SubsequenceOfTail(a, c);
        }
      } else {
        SubsequenceTransitive(a, b, c[1..]);
        SubsequenceOfTail(a, c);
      }
    }
  }

  lemma {:induction false} SubsequenceElements<T>(a: seq<T>, b: seq<T>)
    requires Subsequence(a, b)
    ensures forall x :: x in a ==> x in b
    decreases |b|
  {
    if a != [] {
      if a[0] == b[0] {
        SubsequenceElements(a[1..], b[1..]);
        assert a == [a[0]] + a[1..];
      } else {
        SubsequenceElements(a, b[1..]);
      }
    }
  }

  /** Two places of a subsequence are two places of the whole, in the same order. */
  lemma {:induction false} SubsequencePair<T>(a: seq<T>, b: seq<T>, i: nat, j: nat) returns (k: nat, l: nat)
    requires Subsequence(a, b) && i < j < |a|
    ensures k < l < |b| && b[k] == a[i] && b[l] == a[j]
    decreases |b|
  {
    if a[0] != b[0] {
      k, l := SubsequencePair(a, b[1..], i, j);
      k, l := k + 1, l + 1;
    } else if i > 0 {
      k, l := SubsequencePair(a[1..], b[1..], i - 1, j - 1);
      k, l := k + 1, l + 1;
    } else {
      SubsequenceElements(a[1..], b[1..]);
      assert a[1..][j - 1] == a[j];
      assert a[j] in b[1..];
      l :| 0 <= l < |b[1..]| && b[1..][l] == a[j];
      k, l := 0, l + 1;
    }
  }

  /** In a duplicate-free sequence, the head of a subsequence comes before the rest of it. */
  lemma {:induction false} SubsequenceHeadFirst<T>(a: seq<T>, b: seq<T>, x: T)
    requires Subsequence(a, b) && Distinct(b) && a != [] && x in a[1..]
    ensures x != b[0]
    decreases |b|
  {
    if a[0] == b[0] {
      SubsequenceElements(a[1..], b[1..]);
    } else {
      SubsequenceElements(a, b[1..]);
      assert x in b[1..];
    }
  }

  /** Leaving out an element that the subsequence does not use. */
  lemma {:induction false} SubsequenceWithout<T>(a: seq<T>, b: seq<T>, gone: seq<T>)
    requires Subsequence(a, b)
    requires forall x :: x in a ==> x !in gone
    ensures Subsequence(a, Without(b, gone))
    decreases |b|
  {
    if a != [] {
      assert a[0] in a;
      var rest := Without(b[1..], gone);
      if a[0] == b[0] {
        SubsequenceWithout(a[1..], b[1..], gone);
        assert ([b[0]] + rest)[1..] == rest;
      } else {
        SubsequenceWithout(a, b[1..], gone);
        if b[0] !in gone { assert ([b[0]] + rest)[1..] == rest; }
      }
    }
  }

  lemma {:induction false} DistinctWithout<T>(s: seq<T>, gone: seq<T>)
    requires Distinct(s)
    ensures Distinct(Without(s, gone))
  {
    if s != [] { DistinctWithout(s[1..], gone); }
  }

  lemma DistinctCons<T>(x: T, s: seq<T>)
    requires Distinct(s) && x !in s
    ensures Distinct([x] + s)
  {
  }

  /** The numbers from `from` up to and without `to`. */
  function Range(from: int, to: int): (r: seq<int>)
    ensures |r| == (if from < to then to - from else 0) && forall k | 0 <= k < |r| :: r[k] == from + k
  {
    if from < to then seq(to - from, k requires 0 <= k < to - from => from + k) else []
  }

  lemma RangeMembers(from: int, to: int, x: int)
    ensures x in Range(from, to) <==> from <= x < to
  {
    if from <= x < to { assert Range(from, to)[x - from] == x; }
  }

  lemma RangesJoin(a: int, b: int)
    requires 0 <= a <= b
    ensures Range(0, a) + Range(a, b) == Range(0, b)
  {
  }

  function Sum(s: seq<int>): int {
    if s == [] then 0 else Sum(s[..|s| - 1]) + s[|s| - 1]
  }
}
