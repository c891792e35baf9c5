/** Paths in a directed graph given by a successor function. */
module Paths {

  ghost predicate IsPath<V(!new)>(succ: V -> set<V>, p: seq<V>) {
    |p| > 0 && forall i :: 0 <= i < |p| - 1 ==> p[i + 1] in succ(p[i])
  }

  ghost predicate PathFrom<V(!new)>(succ: V -> set<V>, a: V, p: seq<V>) {
    IsPath(succ, p) && p[0] == a
  }

  function Last<V>(p: seq<V>): V
    requires |p| > 0
  {
    p[|p| - 1]
  }

  function Front<V>(p: seq<V>): seq<V>
    requires |p| > 0
  {
    p[..|p| - 1]
  }

  ghost predicate Reachable<V(!new)>(succ: V -> set<V>, a: V, b: V) {
    exists p :: PathFrom(succ, a, p) && Last(p) == b
  }

  lemma ReachSelf<V(!new)>(succ: V -> set<V>, a: V)
    ensures Reachable(succ, a, a)
  {
    assert PathFrom(succ, a, [a]) && Last([a]) == a;
  }

  lemma PathSnoc<V(!new)>(succ: V -> set<V>, a: V, p: seq<V>, b: V)
    requires PathFrom(succ, a, p) && b in succ(Last(p))
    ensures PathFrom(succ, a, p + [b]) && Last(p + [b]) == b && Front(p + [b]) == p
  {
    var q := p + [b];
    forall i | 0 <= i < |q| - 1
      ensures q[i + 1] in succ(q[i])
    {
      if i < |p| - 1 {
        assert p[i + 1] in succ(p[i]);
      }
    }
  }

  lemma ReachStep<V(!new)>(succ: V -> set<V>, a: V, b: V, c: V)
    requires Reachable(succ, a, b) && c in succ(b)
    ensures Reachable(succ, a, c)
  {
    var p :| PathFrom(succ, a, p) && Last(p) == b;
    PathSnoc(succ, a, p, c);
  }

  /** A path without its last vertex is a path with an edge to that vertex. */
  lemma PathFront<V(!new)>(succ: V -> set<V>, a: V, p: seq<V>)
    requires PathFrom(succ, a, p) && |p| > 1
    ensures PathFrom(succ, a, Front(p)) && Last(p) in succ(Last(Front(p)))
  {
    assert p[|p| - 2 + 1] in succ(p[|p| - 2]);
    forall i | 0 <= i < |Front(p)| - 1
      ensures Front(p)[i + 1] in succ(Front(p)[i])
    {
      assert p[i + 1] in succ(p[i]);
    }
  }

  ghost predicate Closed<V(!new)>(succ: V -> set<V>, s: set<V>) {
    forall v :: v in s ==> succ(v) <= s
  }

  /** A closed set holding the start holds every vertex of every path. */
  lemma {:induction false} ClosedHoldsPath<V(!new)>(succ: V -> set<V>, s: set<V>, a: V, p: seq<V>)
    requires Closed(succ, s) && a in s && PathFrom(succ, a, p)
    ensures Last(p) in s
    decreases |p|
  {
    if |p| > 1 {
      PathFront(succ, a, p);
      ClosedHoldsPath(succ, s, a, Front(p));
    }
  }

  lemma ClosedHoldsReachable<V(!new)>(succ: V -> set<V>, s: set<V>, a: V, b: V)
    requires Closed(succ, s) && a in s && Reachable(succ, a, b)
    ensures b in s
  {
    var p :| PathFrom(succ, a, p) && Last(p) == b;
    ClosedHoldsPath(succ, s, a, p);
  }

  lemma {:induction false} ReachTransitive<V(!new)>(succ: V -> set<V>, a: V, b: V, p: seq<V>)
    requires Reachable(succ, a, b) && PathFrom(succ, b, p)
    ensures Reachable(succ, a, Last(p))
    decreases |p|
  {
    if |p| > 1 {
      PathFront(succ, b, p);
      ReachTransitive(succ, a, b, Front(p));
      ReachStep(succ, a, Last(Front(p)), Last(p));
    }
  }

  lemma ReachTrans<V(!new)>(succ: V -> set<V>, a: V, b: V, c: V)
    requires Reachable(succ, a, b) && Reachable(succ, b, c)
    ensures Reachable(succ, a, c)
  {
    var p :| PathFrom(succ, b, p) && Last(p) == c;
    ReachTransitive(succ, a, b, p);
  }
}
