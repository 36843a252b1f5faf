/** Paths in a finite graph, given as a map from each node to the nodes it points at. */
module Reachability {

  type Graph = map<string, set<string>>

  function Next(g: Graph, x: string): set<string> { if x in g then g[x] else {} }

  predicate IsPath(g: Graph, p: seq<string>) {
    p != [] && forall i | 0 <= i < |p| - 1 :: p[i + 1] in Next(g, p[i])
  }

  ghost predicate Joins(g: Graph, p: seq<string>, a: string, b: string) {
    IsPath(g, p) && p[0] == a && p[|p| - 1] == b
  }

  /** Some path, possibly of no steps, leads from `a` to `b`. */
  ghost predicate Reaches(g: Graph, a: string, b: string) { exists p :: Joins(g, p, a, b) }

  /** Some path of at least one step leads from `a` to `b`. */
  ghost predicate Leads(g: Graph, a: string, b: string) { exists m :: m in Next(g, a) && Reaches(g, m, b) }

  lemma ReachesSelf(g: Graph, a: string)
    ensures Reaches(g, a, a)
  {
    assert Joins(g, [a], a, a);
  }

  lemma ReachesStep(g: Graph, a: string, b: string, c: string)
    requires Reaches(g, a, b) && c in Next(g, b)
    ensures Reaches(g, a, c)
  {
    var p :| Joins(g, p, a, b);
    assert Joins(g, p + [c], a, c);
  }

  lemma LeadsStep(g: Graph, a: string, b: string, c: string)
    requires a == b || Leads(g, a, b)
    requires c in Next(g, b)
    ensures Leads(g, a, c)
  {
    if a == b {
      ReachesSelf(g, c);
    } else {
      var m :| m in Next(g, a) && Reaches(g, m, b);
      ReachesStep(g, m, b, c);
    }
  }

  /** A path never leaves a set of nodes that holds its start and every successor of its nodes. */
  lemma ClosedHoldsReachable(g: Graph, nodes: set<string>, a: string, b: string)
    requires a in nodes && forall x | x in nodes :: Next(g, x) <= nodes
    requires Reaches(g, a, b)
    ensures b in nodes
  {
    var p :| Joins(g, p, a, b);
    for i := 0 to |p| - 1
      invariant p[i] in nodes
    {
      assert p[i + 1] in Next(g, p[i]);
    }
  }

  /** No node reachable from `root` leads back to itself. */
  ghost predicate AcyclicFrom(g: Graph, root: string) {
    forall x | Reaches(g, root, x) :: !Leads(g, x, x)
  }

  /** Every node stands after all its successors. */
  ghost predicate SuccessorsFirst(g: Graph, order: seq<string>) {
    forall i | 0 <= i < |order| :: forall c | c in Next(g, order[i]) :: c in order[..i]
  }

  /** In such an order, everything a node leads to stands before it. */
  lemma {:induction false} ReachedFirst(g: Graph, order: seq<string>, i: nat, p: seq<string>)
    requires SuccessorsFirst(g, order) && i < |order|
    requires IsPath(g, p) && p[0] == order[i]
    ensures p[|p| - 1] in order[..i + 1]
    decreases |p|
  {
    if |p| > 1 {
      assert p[1] in Next(g, p[0]);
      var j :| 0 <= j < i && order[j] == p[1];
      forall k | 0 <= k < |p[1..]| - 1 ensures p[1..][k + 1] in Next(g, p[1..][k]) {
        assert p[k + 2] in Next(g, p[k + 1]);
      }
      ReachedFirst(g, order, j, p[1..]);
    }
  }

  /** So a graph that has such an order, without repetition, has no cycle among its nodes. */
  lemma OrderedIsAcyclic(g: Graph, order: seq<string>, x: string)
    requires SuccessorsFirst(g, order) && x in order
    requires forall i, j | 0 <= i < j < |order| :: order[i] != order[j]
    ensures !Leads(g, x, x)
  {
    if Leads(g, x, x) {
      var i :| 0 <= i < |order| && order[i] == x;
      var m :| m in Next(g, x) && Reaches(g, m, x);
      var p :| Joins(g, p, m, x);
      assert m in order[..i];
      var j :| 0 <= j < i && order[j] == m;
      ReachedFirst(g, order, j, p);
    }
  }
}
