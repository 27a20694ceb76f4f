/** Reachability along the direct-report edges of an org chart, with the
    chart given as a value: each person's list of direct reports. */
module Reach {

  /** Consecutive entries of `path` are joined by edges of `g`. */
  ghost predicate IsPath<N>(g: map<N, seq<N>>, path: seq<N>)
  {
    forall k :: 0 <= k < |path| - 1 ==> path[k] in g && path[k + 1] in g[path[k]]
  }

  /** `path` leads from a to b by one or more edges. */
  ghost predicate PathFromTo<N>(g: map<N, seq<N>>, a: N, older path: seq<N>, b: N)
  {
    |path| >= 2 && path[0] == a && path[|path| - 1] == b && IsPath(g, path)
  }

  /** b is reached from a by one or more edges. */
  ghost predicate Reaches<N>(g: map<N, seq<N>>, a: N, b: N)
  {
    exists path :: PathFromTo(g, a, path, b)
  }

  /** Only a node with an incoming edge can be reached. */
  lemma ReachedHasParent<N>(g: map<N, seq<N>>, a: N, b: N)
    requires Reaches(g, a, b)
    ensures exists x :: x in g && b in g[x]
  {
    var path :| PathFromTo(g, a, path, b);
    var x := path[|path| - 2];
    assert x in g && b in g[x];
  }

  /** Every edge out of a member of s ends in s. */
  ghost predicate ClosedIn<N>(g: map<N, seq<N>>, s: set<N>)
  {
    forall x, y :: x in s && x in g && y in g[x] ==> y in s
  }

  lemma ReachesEdge<N>(g: map<N, seq<N>>, a: N, b: N)
    requires a in g && b in g[a]
    ensures Reaches(g, a, b)
  {
    assert PathFromTo(g, a, [a, b], b);
  }

  lemma ReachesStep<N>(g: map<N, seq<N>>, a: N, b: N, c: N)
    requires Reaches(g, a, b) && b in g && c in g[b]
    ensures Reaches(g, a, c)
  {
    var path :| PathFromTo(g, a, path, b);
    var longer := path + [c];
    assert PathFromTo(g, a, longer, c);
  }

  /** A set holding a's successors and closed under the edges holds
      everything a reaches. */
  lemma ReachableInClosed<N>(g: map<N, seq<N>>, a: N, s: set<N>, b: N)
    requires a in g && forall y :: y in g[a] ==> y in s
    requires ClosedIn(g, s)
    requires Reaches(g, a, b)
    ensures b in s
  {
    var path :| PathFromTo(g, a, path, b);
    PathInClosed(g, a, s, path, |path| - 1);
  }

  /** The same, for every node a reaches at once. */
  lemma ReachableAllInClosed<N>(g: map<N, seq<N>>, a: N, s: set<N>)
    requires a in g && forall y :: y in g[a] ==> y in s
    requires ClosedIn(g, s)
    ensures forall b :: Reaches(g, a, b) ==> b in s
  {
    forall b | Reaches(g, a, b)
      ensures b in s
    {
      ReachableInClosed(g, a, s, b);
    }
  }

  lemma {:induction false} PathInClosed<N>(g: map<N, seq<N>>, a: N, s: set<N>, path: seq<N>, k: nat)
    requires a in g && forall y :: y in g[a] ==> y in s
    requires ClosedIn(g, s)
    requires |path| >= 2 && path[0] == a && IsPath(g, path)
    requires 1 <= k < |path|
    ensures path[k] in s
    decreases k
  {
    if k > 1 {
      PathInClosed(g, a, s, path, k - 1);
    }
  }
}
