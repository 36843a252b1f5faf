/**
 The append-only git reference cache of 3rdparty/fetch_cache.py, for repositories with full history.
 A commit's name determines its parents, so the history is a fixed function; what varies is which
 commits are present. Advertised refs can be overwritten and deleted; anchors are only ever added.
 */
module FetchCache {
  type Sha = string
  type RefName = string

  /** The parents of every commit, present or not. */
  type History = Sha -> set<Sha>

  // ---------------------------------------------------------------------------
  // Connectivity
  // ---------------------------------------------------------------------------

  /** Each commit of the line is a parent of the one before it. */
  ghost predicate Line(parents: History, p: seq<Sha>) {
    p != [] && forall i | 0 <= i < |p| - 1 :: p[i + 1] in parents(p[i])
  }

  ghost predicate LineFromTo(parents: History, p: seq<Sha>, s: Sha, a: Sha) {
    Line(parents, p) && p[0] == s && p[|p| - 1] == a
  }

  /** `a` is `s` or one of its ancestors. */
  ghost predicate Ancestor(parents: History, s: Sha, a: Sha) {
    exists p :: LineFromTo(parents, p, s, a)
  }

  /** The whole ancestry of `s` is present. */
  ghost predicate Connected(parents: History, objects: set<Sha>, s: Sha) {
    forall a | Ancestor(parents, s, a) :: a in objects
  }

  lemma AncestorSelf(parents: History, s: Sha)
    ensures Ancestor(parents, s, s)
  {
    assert LineFromTo(parents, [s], s, s);
  }

  lemma AncestorParent(parents: History, s: Sha, a: Sha, b: Sha)
    requires Ancestor(parents, s, a) && b in parents(a)
    ensures Ancestor(parents, s, b)
  {
    var p :| LineFromTo(parents, p, s, a);
    assert LineFromTo(parents, p + [b], s, b);
  }

  /** A set that holds `s` and the parents of its members holds the ancestry of `s`. */
  lemma {:induction false} ClosedHoldsLine(parents: History, closed: set<Sha>, p: seq<Sha>)
    requires Line(parents, p) && p[0] in closed && forall x | x in closed :: parents(x) <= closed
    ensures p[|p| - 1] in closed
    decreases |p|
  {
    if |p| > 1 {
      var q := p[1..];
      assert p[0 + 1] in parents(p[0]);
      forall i | 0 <= i < |q| - 1 ensures q[i + 1] in parents(q[i]) { assert p[i + 1 + 1] in parents(p[i + 1]); }
      ClosedHoldsLine(parents, closed, q);
    }
  }

  /** Objects are never removed, so connectivity is never lost. */
  lemma ConnectedMonotone(parents: History, objects: set<Sha>, more: set<Sha>, s: Sha)
    requires Connected(parents, objects, s) && objects <= more
    ensures Connected(parents, more, s)
  {
  }

  /** The ancestry walk: true exactly when every commit it reaches is present. */
  method IsConnected(parents: History, objects: set<Sha>, s: Sha) returns (r: bool)
    ensures r <==> Connected(parents, objects, s)
  {
    AncestorSelf(parents, s);
    var seen: set<Sha>, todo: set<Sha> := {}, {s};
    while todo != {}
      invariant seen <= objects && s in seen + todo && seen !! todo
      invariant forall x | x in seen + todo :: Ancestor(parents, s, x)
      invariant forall x | x in seen :: parents(x) <= seen + todo
      decreases objects - seen, todo
    {
      var x :| x in todo;
      if x !in objects { return false; }
      forall b | b in parents(x) ensures Ancestor(parents, s, b) { AncestorParent(parents, s, x, b); }
      seen := seen + {x};
      todo := (todo + parents(x)) - seen;
    }
    forall a | Ancestor(parents, s, a) ensures a in objects {
      var p :| LineFromTo(parents, p, s, a);
      ClosedHoldsLine(parents, seen, p);
    }
    return true;
  }

  // ---------------------------------------------------------------------------
  // One update on its own
  // ---------------------------------------------------------------------------

  /** The refs whose whole ancestry is present. */
  ghost function ConnectedRefs(parents: History, objects: set<Sha>, refs: map<RefName, Sha>): map<RefName, Sha> {
    map r | r in refs && Connected(parents, objects, refs[r]) :: refs[r]
  }

  class BareRepo {
    const parents: History
    var objects: set<Sha>
    var refs: map<RefName, Sha>
    var have: set<Sha>

    /** Every anchor has its whole ancestry. */
    ghost predicate Valid()
      reads this
    {
      forall s | s in have :: Connected(parents, objects, s)
    }

    constructor (parents: History)
      ensures Valid() && this.parents == parents && objects == {} && refs == map[] && have == {}
    {
      this.parents := parents;
      objects, refs, have := {}, map[], {};
    }

    /** Delete a ref if it still points at `s`. */
    method DeleteRef(r: RefName, s: Sha)
      modifies this`refs
      ensures refs == if r in old(refs) && old(refs)[r] == s then old(refs) - {r} else old(refs)
    {
      if r in refs && refs[r] == s { refs := refs - {r}; }
    }

    /** Create an anchor; an anchor that exists, or a missing object, changes nothing. */
    method CreateAnchor(s: Sha)
      modifies this`have
      ensures have == if s in objects then old(have) + {s} else old(have)
    {
      if s in objects && s !in have { have := have + {s}; }
    }

    /**
     Delete the advertised refs with missing ancestry. Skipping the verified commits deletes exactly
     the refs that a check of every ref would.
     */
    method PruneDisconnectedRefs(verified: set<Sha>)
      requires forall s | s in verified :: Connected(parents, objects, s)
      modifies this`refs
      ensures refs == ConnectedRefs(parents, objects, old(refs))
    {
      var listed := refs;
      var todo, done: set<RefName> := listed.Keys, {};
      while todo != {}
        invariant todo + done == listed.Keys && todo !! done
        invariant refs == map r | r in listed && (r in done ==> Connected(parents, objects, listed[r])) :: listed[r]
        decreases todo
      {
        var r :| r in todo;
        var s := listed[r];
        if s !in verified {
          var connected := IsConnected(parents, objects, s);
          if !connected { DeleteRef(r, s); }
        }
        todo, done := todo - {r}, done + {r};
      }
    }

    /** Anchor the source's ref tips, except those with missing ancestry. */
    method ReplicateSrcRefsChecked(tips: set<Sha>, verified: set<Sha>)
      requires Valid() && verified <= have
      modifies this`have
      ensures Valid() && have == old(have) + set s | s in tips && Connected(parents, objects, s)
    {
      var todo, done: set<Sha> := tips, {};
      while todo != {}
        invariant todo + done == tips && todo !! done
        invariant old(have) <= have
        invariant have == old(have) + set s | s in done && Connected(parents, objects, s)
        decreases todo
      {
        var s :| s in todo;
        AncestorSelf(parents, s);
        if s !in verified {
          var connected := IsConnected(parents, objects, s);
          if connected { CreateAnchor(s); }
        }
        todo, done := todo - {s}, done + {s};
      }
    }

    /**
     A whole update. The fetch brings objects and overwrites refs, pointing them at objects that are
     present; if it fails, or the source has nothing of its own, nothing else is done.
     */
    method EnsureCache(upToDate: bool, fetched: set<Sha>, newRefs: map<RefName, Sha>, fetchSucceeds: bool,
                       tips: set<Sha>)
      returns (ok: bool)
      requires Valid() && newRefs.Values <= objects + fetched
      modifies this`objects, this`refs, this`have
      ensures Valid() && old(objects) <= objects && old(have) <= have
      ensures upToDate ==> ok && objects == old(objects) && refs == old(refs) && have == old(have)
      ensures !upToDate ==> ok == fetchSucceeds && objects == old(objects) + fetched
      ensures !upToDate && !ok ==> refs == old(refs) + newRefs && have == old(have)
      ensures !upToDate && ok ==>
                && refs == ConnectedRefs(parents, objects, old(refs) + newRefs)
                && have == old(have) + set s | s in tips && Connected(parents, objects, s)
    {
      if upToDate { return true; }
      objects := objects + fetched;
      refs := refs + newRefs;
      if !fetchSucceeds { return false; }
      var verified := have;
      PruneDisconnectedRefs(verified);
      ReplicateSrcRefsChecked(tips, verified);
      return true;
    }
  }
}
