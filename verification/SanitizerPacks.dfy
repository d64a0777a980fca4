/** Resolving sanitizer packs that extend each other (`resolve_sanitizer_pack_policy` in
    `package.rs`). */
module SanitizerPacks {
  import opened Wrappers

  datatype CharClass = AlphaHyphen | Email | Identifier | PersonName

  datatype Policy = Policy(
    trim: bool, stripControlChars: bool, maxChars: Option<nat>,
    lowercase: bool, collapseWhitespace: bool, allowedChars: Option<CharClass>)

  datatype Pack = Pack(
    name: string, parents: seq<string>,
    trim: Option<bool>, stripControlChars: Option<bool>, maxChars: Option<nat>,
    lowercase: Option<bool>, collapseWhitespace: Option<bool>, allowedChars: Option<string>)

  /** What the runtime provides: the default policy, composition and the built-in packs. */
  datatype Runtime = Runtime(default: Policy, compose: (Policy, Policy) -> Policy, builtin: string -> Option<Policy>)

  datatype PackError = Recursive(name: string) | Unknown(name: string) | BadSettings(name: string)

  function ParseCharClass(value: string): Option<CharClass> {
    match value
    case "alpha_hyphen" | "latin_identifier" => Some(AlphaHyphen)
    case "email" => Some(Email)
    case "identifier" => Some(Identifier)
    case "person_name" | "name" => Some(PersonName)
    case _ => None
  }

  /** A pack's own settings are usable. */
  predicate ValidSettings(pack: Pack) {
    pack.maxChars != Some(0) && (pack.allowedChars.Some? ==> ParseCharClass(pack.allowedChars.value).Some?)
  }

  function Or<T>(own: Option<T>, inherited: T): T { if own.Some? then own.value else inherited }

  /** `pack_policy`. */
  function OwnPolicy(rt: Runtime, pack: Pack): (p: Option<Policy>)
    ensures p.Some? <==> ValidSettings(pack)
  {
    var d := rt.default;
    if pack.maxChars == Some(0) then None
    else if pack.allowedChars.Some? && ParseCharClass(pack.allowedChars.value).None? then None
    else Some(Policy(
      Or(pack.trim, d.trim), Or(pack.stripControlChars, d.stripControlChars),
      if pack.maxChars.Some? then pack.maxChars else d.maxChars,
      Or(pack.lowercase, d.lowercase), Or(pack.collapseWhitespace, d.collapseWhitespace),
      if pack.allowedChars.Some? then ParseCharClass(pack.allowedChars.value) else d.allowedChars))
  }

  /** The first pack of that name. */
  function Find(packs: seq<Pack>, name: string): (pack: Option<Pack>)
    ensures pack.Some? ==> pack.value.name == name && pack.value in packs
    ensures pack.Some? <==> name in Configured(packs)
  {
    if |packs| == 0 then None else if packs[0].name == name then Some(packs[0]) else Find(packs[1..], name)
  }

  function Configured(packs: seq<Pack>): set<string> {
    set pack | pack in packs :: pack.name
  }

  // ---------- meaning, without a walk ----------

  /** `p` follows `extends` from pack to pack. */
  ghost predicate IsChain(packs: seq<Pack>, p: seq<string>) {
    |p| > 0 && forall i :: 0 <= i < |p| - 1 ==> Extends(packs, p[i], p[i + 1])
  }

  ghost predicate Extends(packs: seq<Pack>, name: string, parent: string) {
    Find(packs, name).Some? && parent in Find(packs, name).value.parents
  }

  /** A known leaf, or a configured pack with usable settings. */
  ghost predicate Sound(rt: Runtime, packs: seq<Pack>, name: string) {
    match Find(packs, name)
    case None => rt.builtin(name).Some?
    case Some(pack) => ValidSettings(pack)
  }

  ghost predicate NoRepeat(p: seq<string>) {
    forall i, j :: 0 <= i < j < |p| ==> p[i] != p[j]
  }

  ghost predicate GoodChain(rt: Runtime, packs: seq<Pack>, p: seq<string>, avoid: set<string>) {
    NoRepeat(p) && (forall x :: x in p ==> x !in avoid) && (p != [] ==> Sound(rt, packs, p[|p| - 1]))
  }

  /** What `name` reaches is sound and free of cycles, and stays clear of `avoid`.  Reaching
      a pack along two different chains is no cycle. */
  ghost predicate Resolvable(rt: Runtime, packs: seq<Pack>, name: string, avoid: set<string>) {
    forall p :: IsChain(packs, p) && p[0] == name ==> GoodChain(rt, packs, p, avoid)
  }

  /** The value of a pack, evaluated to a depth: its parents in order, then its own settings. */
  function Value(rt: Runtime, packs: seq<Pack>, name: string, depth: nat): Option<Policy>
    decreases depth, 1, 0
  {
    if depth == 0 then None
    else
      match Find(packs, name)
      case None => rt.builtin(name)
      case Some(pack) =>
        var parents := Parents(rt, packs, pack.parents, depth - 1);
        if parents.Some? && OwnPolicy(rt, pack).Some?
        then Some(rt.compose(parents.value, OwnPolicy(rt, pack).value))
        else None
  }

  function Parents(rt: Runtime, packs: seq<Pack>, names: seq<string>, depth: nat): Option<Policy>
    decreases depth, 2, |names|
  {
    if |names| == 0 then Some(rt.default)
    else
      var first := Parents(rt, packs, names[..|names| - 1], depth);
      var last := Value(rt, packs, names[|names| - 1], depth);
      if first.Some? && last.Some? then Some(rt.compose(first.value, last.value)) else None
  }

  function Depth(packs: seq<Pack>, avoid: set<string>): nat { |Configured(packs) - avoid| + 1 }

  lemma NoParents(rt: Runtime, packs: seq<Pack>, depth: nat)
    ensures Parents(rt, packs, [], depth) == Some(rt.default)
  {}

  lemma OneMoreParent(rt: Runtime, packs: seq<Pack>, names: seq<string>, i: nat, depth: nat)
    requires i < |names|
    ensures var first, last := Parents(rt, packs, names[..i], depth), Value(rt, packs, names[i], depth);
            Parents(rt, packs, names[..i + 1], depth) ==
            if first.Some? && last.Some? then Some(rt.compose(first.value, last.value)) else None
  {
    hide Value;
    assert names[..i + 1][..i] == names[..i];
  }

  // ---------- the walk ----------

  class PackResolver {
    var resolving: set<string>

    constructor ()
      ensures resolving == {}
    {
      resolving := {};
    }

    /** `resolve_sanitizer_pack_policy`: succeeds exactly on resolvable packs, with their
        value, and then leaves `resolving` as it was. */
    method Resolve(rt: Runtime, packs: seq<Pack>, name: string) returns (r: Result<Policy, PackError>)
      modifies this
      ensures r.Ok? <==> Resolvable(rt, packs, name, old(resolving))
      ensures r.Ok? ==> resolving == old(resolving)
      ensures r.Ok? ==> Value(rt, packs, name, Depth(packs, old(resolving))) == Some(r.value)
      decreases Configured(packs) - resolving
    {
      hide Resolvable, Find, OwnPolicy, Sound, Depth, Parents;
      NoParents(rt, packs, Depth(packs, resolving + {name}));
      if name in resolving {
        AvoidedIsNotResolvable(rt, packs, name, resolving);
        return Err(Recursive(name));
      }
      ghost var avoid := resolving;
      resolving := resolving + {name};
      var found := Find(packs, name);
      if found.None? {
        resolving := resolving - {name};
        LeafIsResolvable(rt, packs, name, avoid);
        var builtin := rt.builtin(name);
        return if builtin.Some? then Ok(builtin.value) else Err(Unknown(name));
      }
      DepthStep(packs, avoid, name);
      var pack := found.value;
      var policy := rt.default;
      for i := 0 to |pack.parents|
        invariant resolving == avoid + {name}
        invariant forall j :: 0 <= j < i ==> Resolvable(rt, packs, pack.parents[j], avoid + {name})
        invariant Parents(rt, packs, pack.parents[..i], Depth(packs, avoid + {name})) == Some(policy)
      {
        var parent := Resolve(rt, packs, pack.parents[i]);
        if parent.Err? {
          BadParent(rt, packs, name, avoid, i);
          return Err(parent.error);
        }
        OneMoreParent(rt, packs, pack.parents, i, Depth(packs, avoid + {name}));
        policy := rt.compose(policy, parent.value);
      }
      assert pack.parents[..|pack.parents|] == pack.parents;
      var own := OwnPolicy(rt, pack);
      if own.None? {
        BadSettingsFail(rt, packs, name, avoid);
        return Err(BadSettings(name));
      }
      policy := rt.compose(policy, own.value);
      resolving := resolving - {name};
      GoodParents(rt, packs, name, avoid);
      r := Ok(policy);
    }

    /** `sanitizer_pack_policies`: every configured pack with its value. */
    method AllPolicies(rt: Runtime, packs: seq<Pack>) returns (r: Result<seq<(string, Policy)>, PackError>)
      requires resolving == {}
      modifies this
      ensures r.Ok? <==> forall i :: 0 <= i < |packs| ==> Resolvable(rt, packs, packs[i].name, {})
      ensures r.Ok? ==> |r.value| == |packs| && forall i :: 0 <= i < |packs| ==>
                r.value[i].0 == packs[i].name && Some(r.value[i].1) == Value(rt, packs, packs[i].name, Depth(packs, {}))
    {
      hide Resolvable, Value;
      var out: seq<(string, Policy)> := [];
      for i := 0 to |packs|
        invariant resolving == {} && |out| == i
        invariant forall j :: 0 <= j < i ==> Resolvable(rt, packs, packs[j].name, {})
        invariant forall j :: 0 <= j < i ==>
          out[j].0 == packs[j].name && Some(out[j].1) == Value(rt, packs, packs[j].name, Depth(packs, {}))
      {
        var policy := Resolve(rt, packs, packs[i].name);
        if policy.Err? {
          return Err(policy.error);
        }
        out := out + [(packs[i].name, policy.value)];
      }
      r := Ok(out);
    }
  }

  // ---------- why the walk decides resolvability ----------

  lemma AvoidedIsNotResolvable(rt: Runtime, packs: seq<Pack>, name: string, avoid: set<string>)
    requires name in avoid
    ensures !Resolvable(rt, packs, name, avoid)
  {
    assert IsChain(packs, [name]) && name in [name];
  }

  lemma FirstStep(packs: seq<Pack>, p: seq<string>)
    requires IsChain(packs, p)
    ensures |p| == 1 || Extends(packs, p[0], p[1])
  {}

  lemma LeafIsResolvable(rt: Runtime, packs: seq<Pack>, name: string, avoid: set<string>)
    requires Find(packs, name).None? && name !in avoid
    ensures Resolvable(rt, packs, name, avoid) <==> rt.builtin(name).Some?
    ensures Value(rt, packs, name, Depth(packs, avoid)) == rt.builtin(name)
  {
    hide Find;
    assert IsChain(packs, [name]) && forall x :: !Extends(packs, name, x);
    if rt.builtin(name).Some? {
      forall p | IsChain(packs, p) && p[0] == name ensures GoodChain(rt, packs, p, avoid) {
        FirstStep(packs, p);
        assert p == [name];
      }
    } else {
      assert !GoodChain(rt, packs, [name], avoid);
    }
  }

  lemma DepthStep(packs: seq<Pack>, avoid: set<string>, name: string)
    requires name in Configured(packs) && name !in avoid
    ensures Depth(packs, avoid + {name}) + 1 == Depth(packs, avoid)
  {
    assert Configured(packs) - avoid == (Configured(packs) - (avoid + {name})) + {name};
  }

  lemma ChainFrom(packs: seq<Pack>, name: string, p: seq<string>)
    requires IsChain(packs, p) && Extends(packs, name, p[0])
    ensures IsChain(packs, [name] + p)
  {
    hide Extends;
  }

  /** A parent that fails spoils its child: the parent's bad chain extends to one from the child. */
  lemma BadParent(rt: Runtime, packs: seq<Pack>, name: string, avoid: set<string>, i: nat)
    requires Find(packs, name).Some? && i < |Find(packs, name).value.parents|
    requires !Resolvable(rt, packs, Find(packs, name).value.parents[i], avoid + {name})
    ensures !Resolvable(rt, packs, name, avoid)
  {
    hide Find, Sound;
    var parent := Find(packs, name).value.parents[i];
    var p :| IsChain(packs, p) && p[0] == parent && !GoodChain(rt, packs, p, avoid + {name});
    ChainFrom(packs, name, p);
    var q := [name] + p;
    assert q[|q| - 1] == p[|p| - 1];
    if GoodChain(rt, packs, q, avoid) {
      forall a, b | 0 <= a < b < |p| ensures p[a] != p[b] {
        assert q[a + 1] != q[b + 1];
      }
      forall x | x in p ensures x !in avoid + {name} {
        var k :| 0 <= k < |p| && p[k] == x;
        assert q[0] != q[k + 1] && q[k + 1] in q;
      }
    }
  }

  lemma BadSettingsFail(rt: Runtime, packs: seq<Pack>, name: string, avoid: set<string>)
    requires Find(packs, name).Some? && !ValidSettings(Find(packs, name).value)
    ensures !Resolvable(rt, packs, name, avoid)
  {
    assert IsChain(packs, [name]);
    assert !GoodChain(rt, packs, [name], avoid);
  }

  lemma GoodParents(rt: Runtime, packs: seq<Pack>, name: string, avoid: set<string>)
    requires Find(packs, name).Some? && ValidSettings(Find(packs, name).value) && name !in avoid
    requires var parents := Find(packs, name).value.parents;
             forall j :: 0 <= j < |parents| ==> Resolvable(rt, packs, parents[j], avoid + {name})
    ensures Resolvable(rt, packs, name, avoid)
  {
    hide Find, ValidSettings;
    forall p | IsChain(packs, p) && p[0] == name ensures GoodChain(rt, packs, p, avoid) {
      if |p| > 1 {
        var q := p[1..];
        assert p == [name] + q;
        assert Extends(packs, p[0], p[1]);
        assert IsChain(packs, q) by {
          forall i | 0 <= i < |q| - 1 ensures Extends(packs, q[i], q[i + 1]) {
            assert Extends(packs, p[i + 1], p[i + 2]);
          }
        }
        var j :| 0 <= j < |Find(packs, name).value.parents| && Find(packs, name).value.parents[j] == q[0];
        assert Resolvable(rt, packs, q[0], avoid + {name});
        assert GoodChain(rt, packs, q, avoid + {name});
        forall a, b | 0 <= a < b < |p| ensures p[a] != p[b] {
          assert p[b] == q[b - 1] && q[b - 1] in q;
          if a > 0 { assert p[a] == q[a - 1]; }
        }
      }
    }
  }

  /** More depth changes no value, so the value found is the value at every greater depth. */
  lemma {:induction false} ValueIsStable(rt: Runtime, packs: seq<Pack>, name: string, depth: nat, more: nat)
    requires depth <= more && Value(rt, packs, name, depth).Some?
    ensures Value(rt, packs, name, more) == Value(rt, packs, name, depth)
    decreases depth, 1, 0
  {
    hide Find, OwnPolicy;
    if Find(packs, name).Some? {
      ParentsAreStable(rt, packs, Find(packs, name).value.parents, depth - 1, more - 1);
    }
  }

  lemma {:induction false} ParentsAreStable(rt: Runtime, packs: seq<Pack>, names: seq<string>, depth: nat, more: nat)
    requires depth <= more && Parents(rt, packs, names, depth).Some?
    ensures Parents(rt, packs, names, more) == Parents(rt, packs, names, depth)
    decreases depth, 2, |names|
  {
    if names != [] {
      ParentsAreStable(rt, packs, names[..|names| - 1], depth, more);
      ValueIsStable(rt, packs, names[|names| - 1], depth, more);
    }
  }
}
