/** Reachability along the edges of a directed graph. */
module Reach {

  ghost predicate IsPath<T(!new)>(edge: (T, T) -> bool, p: seq<T>, a: T, b: T) {
    && p != []
    && p[0] == a && p[|p| - 1] == b
    && forall i :: 0 <= i < |p| - 1 ==> edge(p[i], p[i + 1])
  }

  ghost predicate Reaches<T(!new)>(edge: (T, T) -> bool, a: T, b: T) {
    exists p: seq<T> :: IsPath(edge, p, a, b)
  }

  lemma ReachesSelf<T(!new)>(edge: (T, T) -> bool, a: T)
    ensures Reaches(edge, a, a)
  {
    assert IsPath(edge, [a], a, a);
  }

  /** A path may be extended at its end. */
  lemma StepAfter<T(!new)>(edge: (T, T) -> bool, a: T, b: T, c: T)
    requires Reaches(edge, a, b) && edge(b, c)
    ensures Reaches(edge, a, c)
  {
    var p :| IsPath(edge, p, a, b);
    assert IsPath(edge, p + [c], a, c);
  }

  /** A path may be extended at its start. */
  lemma StepBefore<T(!new)>(edge: (T, T) -> bool, a: T, b: T, c: T)
    requires edge(a, b) && Reaches(edge, b, c)
    ensures Reaches(edge, a, c)
  {
    var p :| IsPath(edge, p, b, c);
    var q := [a] + p;
    forall i | 0 <= i < |q| - 1
      ensures edge(q[i], q[i + 1])
    {
      if i > 0 {
        assert edge(p[i - 1], p[i]);
      }
    }
    assert IsPath(edge, q, a, c);
  }

  /** More edges reach more. */
  lemma MoreEdges<T(!new)>(few: (T, T) -> bool, many: (T, T) -> bool, a: T, b: T)
    requires Reaches(few, a, b) && forall x, y :: few(x, y) ==> many(x, y)
    ensures Reaches(many, a, b)
  {
    var p :| IsPath(few, p, a, b);
    assert IsPath(many, p, a, b);
  }

  /** A set closed under the edges holds everything reachable from its members. */
  lemma ClosedHoldsAll<T(!new)>(edge: (T, T) -> bool, s: set<T>, a: T, b: T)
    requires a in s && Reaches(edge, a, b)
    requires forall x, y :: x in s && edge(x, y) ==> y in s
    ensures b in s
  {
    var p :| IsPath(edge, p, a, b);
    AlongPath(edge, s, p, a, b, |p| - 1);
  }

  lemma {:induction false} AlongPath<T(!new)>(edge: (T, T) -> bool, s: set<T>, p: seq<T>, a: T, b: T, k: nat)
    requires a in s && IsPath(edge, p, a, b) && k < |p|
    requires forall x, y :: x in s && edge(x, y) ==> y in s
    ensures p[k] in s
  {
    if k > 0 {
      AlongPath(edge, s, p, a, b, k - 1);
      assert edge(p[k - 1], p[k]);
    }
  }

  lemma Subset<T>(a: set<T>, b: set<T>)
    requires a <= b
    ensures |a| <= |b|
  {
    assert b == a + (b - a);
  }
}
