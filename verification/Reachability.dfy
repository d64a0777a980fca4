/**
 What a depth-first walk visits when it remembers keys instead of nodes.

 The package tool walks one dependency graph three times and remembers a
 different key each time.  The theorem here is the part the walks share.
 */
module Reachability {
  ghost predicate IsPath<N(!new)>(edge: (N, N) -> bool, p: seq<N>) {
    |p| > 0 && forall i :: 0 <= i < |p| - 1 ==> edge(p[i], p[i + 1])
  }

  ghost predicate Reachable<N(!new)>(edge: (N, N) -> bool, a: N, b: N) {
    exists p :: IsPath(edge, p) && p[0] == a && p[|p| - 1] == b
  }

  lemma ReachesItself<N(!new)>(edge: (N, N) -> bool, a: N)
    ensures Reachable(edge, a, a)
  {
    assert IsPath(edge, [a]);
  }

  lemma ReachesNext<N(!new)>(edge: (N, N) -> bool, a: N, b: N, c: N)
    requires Reachable(edge, a, b) && edge(b, c)
    ensures Reachable(edge, a, c)
  {
    var p :| IsPath(edge, p) && p[0] == a && p[|p| - 1] == b;
    assert IsPath(edge, p + [c]);
  }

  ghost predicate ClosedFrom<N(!new)>(edge: (N, N) -> bool, inSet: N -> bool, a: N) {
    inSet(a) && forall s, t :: Reachable(edge, a, s) && inSet(s) && edge(s, t) ==> inSet(t)
  }

  /** A set that holds `a` and every successor of its members holds all that `a` reaches. */
  lemma {:induction false} ClosedHoldsPath<N(!new)>(edge: (N, N) -> bool, inSet: N -> bool, a: N, p: seq<N>)
    requires IsPath(edge, p) && p[0] == a && ClosedFrom(edge, inSet, a)
    ensures inSet(p[|p| - 1]) && Reachable(edge, a, p[|p| - 1])
    decreases |p|
  {
    if |p| == 1 {
      ReachesItself(edge, a);
    } else {
      var q := p[..|p| - 1];
      assert IsPath(edge, q);
      ClosedHoldsPath(edge, inSet, a, q);
      ReachesNext(edge, a, q[|q| - 1], p[|p| - 1]);
    }
  }

  lemma ClosedHoldsReachable<N(!new)>(edge: (N, N) -> bool, inSet: N -> bool, a: N, b: N)
    requires ClosedFrom(edge, inSet, a) && Reachable(edge, a, b)
    ensures inSet(b)
  {
    var p :| IsPath(edge, p) && p[0] == a && p[|p| - 1] == b;
    ClosedHoldsPath(edge, inSet, a, p);
  }

  ghost predicate HasKey<N(!new), K(!new)>(key: N -> K, trail: seq<N>, k: K) {
    exists i :: 0 <= i < |trail| && key(trail[i]) == k
  }

  /** Every successor of `s` has a counterpart with the same key behind `t`. */
  ghost predicate SuccessorsMatch<N(!new), K(!new)>(edge: (N, N) -> bool, key: N -> K, s: N, t: N) {
    forall u :: edge(s, u) ==> exists v :: edge(t, v) && key(v) == key(u)
  }

  /** Nodes with one key have successors with the same keys, wherever the walk may get. */
  ghost predicate KeyDeterminesSuccessors<N(!new), K(!new)>(edge: (N, N) -> bool, key: N -> K, root: N) {
    forall s, t :: Reachable(edge, root, s) && Reachable(edge, root, t) && key(s) == key(t) ==>
      SuccessorsMatch(edge, key, s, t)
  }

  lemma MatchingSuccessor<N(!new), K(!new)>(edge: (N, N) -> bool, key: N -> K, s: N, t: N, u: N) returns (v: N)
    requires SuccessorsMatch(edge, key, s, t) && edge(s, u)
    ensures edge(t, v) && key(v) == key(u)
  {
    v :| edge(t, v) && key(v) == key(u);
  }

  /** A walk that starts at the root and leaves no successor key behind has met the key
      of every reachable node, although it visits one node per key. */
  lemma WalkMeetsEveryKey<N(!new), K(!new)>(edge: (N, N) -> bool, key: N -> K, root: N, trail: seq<N>)
    requires KeyDeterminesSuccessors(edge, key, root)
    requires forall i :: 0 <= i < |trail| ==> Reachable(edge, root, trail[i])
    requires HasKey(key, trail, key(root))
    requires forall i, v :: 0 <= i < |trail| && edge(trail[i], v) ==> HasKey(key, trail, key(v))
    ensures forall t :: Reachable(edge, root, t) ==> HasKey(key, trail, key(t))
  {
    hide Reachable, SuccessorsMatch;
    var met := t => HasKey(key, trail, key(t));
    forall s, t | Reachable(edge, root, s) && met(s) && edge(s, t) ensures met(t) {
      var i :| 0 <= i < |trail| && key(trail[i]) == key(s);
      var v := MatchingSuccessor(edge, key, s, trail[i], t);
    }
    forall t | Reachable(edge, root, t) ensures HasKey(key, trail, key(t)) {
      ClosedHoldsReachable(edge, met, root, t);
    }
  }
}
