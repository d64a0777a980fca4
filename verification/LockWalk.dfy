/**
 The walk of `resolve_lock_entries`: depth first, with a set of visited keys and a
 growing list of entries, over a graph that may have cycles.
 */
module LockWalk {
  import opened Wrappers
  import opened Packages
  import opened Reachability
  import opened LockGraph

  /** Resolved without error, and every dependency's key is among `visited`. */
  ghost predicate Settled(w: World, t: Target, visited: set<string>) {
    t.Found? ==> w.validate(t.manifest) && SettledUpTo(w, t, |t.manifest.dependencies|, visited)
  }

  ghost predicate SettledUpTo(w: World, t: Target, n: nat, visited: set<string>)
    requires t.Found? && n <= |t.manifest.dependencies|
  {
    forall i :: 0 <= i < n ==>
      var next := Follow(w, t.manifest, t.manifest.dependencies[i]);
      next.Ok? && Key(next.value) in visited
  }

  ghost predicate SettledFrom(w: World, trail: seq<Target>, from: nat, visited: set<string>) {
    forall i :: from <= i < |trail| ==> Settled(w, trail[i], visited)
  }

  class LockResolver {
    var visited: set<string>
    var packages: seq<LockPackage>
    ghost var trail: seq<Target>  // the target behind each entry

    constructor ()
      ensures visited == {} && packages == [] && trail == []
    {
      visited, packages, trail := {}, [], [];
    }

    /** One entry per visited key, each for a target the root reaches. */
    ghost predicate Valid(w: World, root: Target)
      reads this
    {
      && |packages| == |trail|
      && (forall i :: 0 <= i < |trail| ==>
            packages[i] == Entry(trail[i]) && Reaches(w, root, trail[i]) && Key(trail[i]) in visited)
      && (forall i, j :: 0 <= i < j < |trail| ==> Key(trail[i]) != Key(trail[j]))
      && (forall k :: k in visited ==> HasKey(Key, trail, k))
    }

    /** `resolve_lock_manifest`: on success the target's key is visited and whatever was
        added is settled; a failure is a reachable target that cannot be resolved. */
    method ResolveManifest(w: World, t: Target, ghost root: Target, ghost keys: set<string>)
      returns (r: Result<(), LoadError>)
      requires t.Found? && Reaches(w, root, t) && KeysWithin(w, root, keys) && Valid(w, root)
      modifies this
      ensures Valid(w, root) && old(trail) <= trail && old(visited) <= visited
      ensures r.Ok? ==> Key(t) in visited && SettledFrom(w, trail, |old(trail)|, visited)
      ensures r.Ok? && old(trail) == [] ==> trail != [] && trail[0] == t
      ensures r.Err? ==> exists u :: Reaches(w, root, u) && !Sound(w, u)
      decreases keys - visited
    {
      hide Key, Entry, Follow, Reaches, Valid, SettledUpTo, Settled;
      if !w.validate(t.manifest) {
        assert !Sound(w, t);
        return Err(InvalidManifest);
      }
      if Key(t) in visited {
        SomethingPushed(w, root, Key(t));
        return Ok(());
      }
      Push(w, t, root);
      ghost var start := |trail|;
      SettledAtStart(w, t, visited);

      var ds := t.manifest.dependencies;
      for i := 0 to |ds|
        invariant Valid(w, root) && old(trail) + [t] <= trail && old(visited) + {Key(t)} <= visited
        invariant SettledUpTo(w, t, i, visited) && SettledFrom(w, trail, start, visited)
      {
        var next := Follow(w, t.manifest, ds[i]);
        if next.Err? {
          assert !Sound(w, t);
          return Err(next.error);
        }
        FollowReaches(w, root, t, i);
        ghost var before, path := visited, trail;
        if next.value.Unresolved? {
          AddUnresolved(w, next.value, root);
        } else {
          var sub := ResolveManifest(w, next.value, root, keys);
          if sub.Err? {
            return sub;
          }
        }
        SettledByStep(w, t, i, before, visited);
        SettledFromGrows(w, path, trail, start, before, visited);
      }
      SettledWhole(w, t, trail, start, visited);
      r := Ok(());
    }

    lemma SomethingPushed(w: World, root: Target, k: string)
      requires Valid(w, root) && k in visited
      ensures trail != []
    {
      hide Key, Entry, Reaches;
      assert HasKey(Key, trail, k);
    }

    /** `add_unresolved_lock_dependency`. */
    method AddUnresolved(w: World, t: Target, ghost root: Target)
      requires t.Unresolved? && Reaches(w, root, t) && Valid(w, root)
      modifies this
      ensures Valid(w, root) && old(trail) <= trail && visited == old(visited) + {Key(t)}
      ensures SettledFrom(w, trail, |old(trail)|, visited)
    {
      if Key(t) in visited {
        return;
      }
      Push(w, t, root);
    }

    /** A new key and its entry. */
    method Push(w: World, t: Target, ghost root: Target)
      requires Reaches(w, root, t) && Valid(w, root) && Key(t) !in visited
      modifies this
      ensures Valid(w, root) && trail == old(trail) + [t] && visited == old(visited) + {Key(t)}
    {
      hide Key, Entry, Reaches;
      visited := visited + {Key(t)};
      packages := packages + [Entry(t)];
      trail := trail + [t];
      forall k | k in visited ensures HasKey(Key, trail, k) {
        if k in old(visited) {
          var i :| 0 <= i < |old(trail)| && Key(old(trail)[i]) == k;
          assert trail[i] == old(trail)[i];
        } else {
          assert trail[|old(trail)|] == t;
        }
      }
    }
  }

  lemma FollowReaches(w: World, root: Target, t: Target, i: nat)
    requires t.Found? && Reaches(w, root, t) && i < |t.manifest.dependencies|
    requires Follow(w, t.manifest, t.manifest.dependencies[i]).Ok?
    ensures Reaches(w, root, Follow(w, t.manifest, t.manifest.dependencies[i]).value)
  {
    hide Reachable, Follow;
    ReachesNext(Edges(w), root, t, Follow(w, t.manifest, t.manifest.dependencies[i]).value);
  }

  lemma SettledAtStart(w: World, t: Target, visited: set<string>)
    requires t.Found?
    ensures SettledUpTo(w, t, 0, visited)
  {}

  lemma SettledByStep(w: World, t: Target, i: nat, visited: set<string>, more: set<string>)
    requires t.Found? && i < |t.manifest.dependencies| && visited <= more
    requires SettledUpTo(w, t, i, visited)
    requires var next := Follow(w, t.manifest, t.manifest.dependencies[i]); next.Ok? && Key(next.value) in more
    ensures SettledUpTo(w, t, i + 1, more)
  {
    hide Key, Follow;
  }

  lemma SettledWhole(w: World, t: Target, trail: seq<Target>, start: nat, visited: set<string>)
    requires t.Found? && w.validate(t.manifest) && SettledUpTo(w, t, |t.manifest.dependencies|, visited)
    requires 0 < start <= |trail| && trail[start - 1] == t && SettledFrom(w, trail, start, visited)
    ensures SettledFrom(w, trail, start - 1, visited)
  {
    hide SettledUpTo;
  }

  lemma SettledFromGrows(w: World, path: seq<Target>, trail: seq<Target>, from: nat, visited: set<string>,
                         more: set<string>)
    requires path <= trail && visited <= more
    requires SettledFrom(w, path, from, visited) && SettledFrom(w, trail, |path|, more)
    ensures SettledFrom(w, trail, from, more)
  {
    hide Key, Follow;
    forall i | from <= i < |trail| ensures Settled(w, trail[i], more) {
      if i < |path| {
        assert path[i] == trail[i];
      }
    }
  }
}
