/** What sanitizer packs come to: composing policies takes the stricter of two, so a pack means
    the strictest of everything it extends (`sanitization.rs`, `package.rs`). */
module SanitizerPolicies {
  import opened Wrappers
  import opened Reachability
  import opened SanitizerPacks

  // ---------- composition ----------

  const DEFAULT := Policy(true, true, None, false, false, None)

  function StricterMax(left: Option<nat>, right: Option<nat>): Option<nat> {
    match (left, right)
    case (Some(m), Some(n)) => Some(if m <= n then m else n)
    case (Some(m), None) => Some(m)
    case (None, _) => right
  }

  /** `compose_char_class`. */
  function ComposeClass(left: Option<CharClass>, right: Option<CharClass>): Option<CharClass> {
    match (left, right)
    case (Some(l), Some(r)) =>
      if l == r then left
      else if l.AlphaHyphen? || r.AlphaHyphen? then Some(AlphaHyphen)
      else if l.PersonName? || r.PersonName? then Some(AlphaHyphen)
      else Some(Identifier)
    case (Some(_), None) => left
    case (None, _) => right
  }

  /** `TextSanitizationPolicy::compose`. */
  function Compose(p: Policy, q: Policy): Policy {
    Policy(p.trim || q.trim, p.stripControlChars || q.stripControlChars, StricterMax(p.maxChars, q.maxChars),
           p.lowercase || q.lowercase, p.collapseWhitespace || q.collapseWhitespace,
           ComposeClass(p.allowedChars, q.allowedChars))
  }

  /** The packs that come with the runtime. */
  function Builtin(name: string): Option<Policy> {
    match name
    case "plain_text" | "text" => Some(DEFAULT.(collapseWhitespace := true, maxChars := Some(4000)))
    case "email" => Some(DEFAULT.(lowercase := true, maxChars := Some(254), allowedChars := Some(Email)))
    case "person_name" | "name" =>
      Some(DEFAULT.(collapseWhitespace := true, maxChars := Some(120), allowedChars := Some(PersonName)))
    case "identifier" | "id" => Some(DEFAULT.(maxChars := Some(128), allowedChars := Some(Identifier)))
    case _ => None
  }

  const PROGRAM := Runtime(DEFAULT, Compose, Builtin)

  // ---------- strictness ----------

  /** The classes by strictness: `alpha_hyphen` below all, `identifier` below `email`. */
  predicate ClassBelow(c: CharClass, d: CharClass) {
    c == d || c.AlphaHyphen? || (c.Identifier? && d.Email?)
  }

  /** `p` asks for all that `q` asks for. */
  predicate IsStricter(p: Policy, q: Policy) {
    && (q.trim ==> p.trim) && (q.stripControlChars ==> p.stripControlChars)
    && (q.lowercase ==> p.lowercase) && (q.collapseWhitespace ==> p.collapseWhitespace)
    && (q.maxChars.Some? ==> p.maxChars.Some? && p.maxChars.value <= q.maxChars.value)
    && (q.allowedChars.Some? ==> p.allowedChars.Some? && ClassBelow(p.allowedChars.value, q.allowedChars.value))
  }

  lemma StrictnessIsPartialOrder(p: Policy, q: Policy, r: Policy)
    ensures IsStricter(p, p)
    ensures IsStricter(p, q) && IsStricter(q, p) ==> p == q
    ensures IsStricter(p, q) && IsStricter(q, r) ==> IsStricter(p, r)
  {}

  /** Composition is the greatest lower bound. */
  lemma ComposeIsMeet(p: Policy, q: Policy, r: Policy)
    ensures IsStricter(Compose(p, q), p) && IsStricter(Compose(p, q), q)
    ensures IsStricter(r, p) && IsStricter(r, q) ==> IsStricter(r, Compose(p, q))
  {}

  /** ... and so indifferent to order, grouping and repetition. */
  lemma ComposeIsSemilattice(p: Policy, q: Policy, r: Policy)
    ensures Compose(p, q) == Compose(q, p) && Compose(p, p) == p
    ensures Compose(Compose(p, q), r) == Compose(p, Compose(q, r))
  {}

  // ---------- a pack is the strictest of what it extends ----------

  ghost function Extension(packs: seq<Pack>): (string, string) -> bool { (a, b) => Extends(packs, a, b) }

  /** What one pack asks for itself: a built-in one its policy, a configured one the default and
      its settings. */
  ghost predicate AsksFor(packs: seq<Pack>, name: string, p: Policy) {
    match Find(packs, name)
    case None => Builtin(name) == Some(p)
    case Some(pack) => p == DEFAULT || IsOwn(pack, p)
  }

  /** The settings of a pack where it has them, the default's elsewhere. */
  ghost predicate IsOwn(pack: Pack, p: Policy) {
    && p.trim == (if pack.trim.Some? then pack.trim.value else true)
    && p.stripControlChars == (if pack.stripControlChars.Some? then pack.stripControlChars.value else true)
    && p.lowercase == (pack.lowercase == Some(true)) && p.collapseWhitespace == (pack.collapseWhitespace == Some(true))
    && p.maxChars == pack.maxChars != Some(0)
    && match pack.allowedChars
       case None => p.allowedChars == None
       case Some(value) =>
         || (value in ["alpha_hyphen", "latin_identifier"] && p.allowedChars == Some(AlphaHyphen))
         || (value == "email" && p.allowedChars == Some(Email))
         || (value == "identifier" && p.allowedChars == Some(Identifier))
         || (value in ["person_name", "name"] && p.allowedChars == Some(PersonName))
  }

  /** Something the pack reaches asks for it. */
  ghost predicate IsAsked(packs: seq<Pack>, name: string, p: Policy) {
    exists x :: Reachable(Extension(packs), name, x) && AsksFor(packs, x, p)
  }

  /** The weakest policy that is as strict as everything asked for. */
  ghost predicate IsStrictest(packs: seq<Pack>, name: string, v: Policy) {
    && (forall p :: IsAsked(packs, name, p) ==> IsStricter(v, p))
    && (forall r :: (forall p :: IsAsked(packs, name, p) ==> IsStricter(r, p)) ==> IsStricter(r, v))
  }

  lemma OwnIsAsked(packs: seq<Pack>, name: string)
    requires Find(packs, name).Some?
    ensures forall p :: AsksFor(packs, name, p) <==>
            p == DEFAULT || OwnPolicy(PROGRAM, Find(packs, name).value) == Some(p)
  {
    hide Find;
    var pack := Find(packs, name).value;
    forall p ensures IsOwn(pack, p) <==> OwnPolicy(PROGRAM, pack) == Some(p) { OwnIsSpelled(pack, p); }
  }

  lemma OwnIsSpelled(pack: Pack, p: Policy)
    ensures IsOwn(pack, p) <==> OwnPolicy(PROGRAM, pack) == Some(p)
  {}

  lemma ReachesItselfOrOn(packs: seq<Pack>, name: string, x: string)
    requires Reachable(Extension(packs), name, x)
    ensures x == name || exists y :: Extends(packs, name, y) && Reachable(Extension(packs), y, x)
  {
    hide Extends;
    var p :| IsPath(Extension(packs), p) && p[0] == name && p[|p| - 1] == x;
    if |p| > 1 {
      assert IsPath(Extension(packs), p[1..]) && p[1..][0] == p[1];
      assert Extension(packs)(p[0], p[1]);
      assert Extends(packs, name, p[1]);
    }
  }

  lemma AskedByParent(packs: seq<Pack>, name: string, y: string, p: Policy)
    requires Extends(packs, name, y) && IsAsked(packs, y, p)
    ensures IsAsked(packs, name, p)
  {
    hide Extends, AsksFor;
    var x :| Reachable(Extension(packs), y, x) && AsksFor(packs, x, p);
    var q :| IsPath(Extension(packs), q) && q[0] == y && q[|q| - 1] == x;
    assert Extension(packs)(name, y);
    assert IsPath(Extension(packs), [name] + q);
  }

  lemma AskedHere(packs: seq<Pack>, name: string, p: Policy)
    requires AsksFor(packs, name, p)
    ensures IsAsked(packs, name, p)
  {
    hide Extends, AsksFor, Reachable;
    ReachesItself(Extension(packs), name);
  }

  ghost predicate IsBelowAll(r: Policy, packs: seq<Pack>, names: seq<string>, depth: nat) {
    forall i :: 0 <= i < |names| ==>
      Value(PROGRAM, packs, names[i], depth).Some? && IsStricter(r, Value(PROGRAM, packs, names[i], depth).value)
  }

  /** The fold over parents is stricter than each, and no stricter than need be. */
  lemma {:induction false} ParentsAreMet(packs: seq<Pack>, names: seq<string>, depth: nat, v: Policy)
    requires Parents(PROGRAM, packs, names, depth) == Some(v)
    requires forall i, w :: 0 <= i < |names| && Value(PROGRAM, packs, names[i], depth) == Some(w) ==>
             IsStrictest(packs, names[i], w)
    ensures IsStricter(v, DEFAULT)
    ensures forall i :: 0 <= i < |names| ==> Value(PROGRAM, packs, names[i], depth).Some?
    ensures forall i :: 0 <= i < |names| ==> IsStricter(v, Value(PROGRAM, packs, names[i], depth).value)
    ensures forall r :: IsStricter(r, DEFAULT) && IsBelowAll(r, packs, names, depth) ==> IsStricter(r, v)
    decreases |names|
  {
    hide Value, IsStrictest, IsStricter, Compose;
    if names == [] {
      StrictnessIsPartialOrder(DEFAULT, DEFAULT, DEFAULT);
    } else {
      var n := |names| - 1;
      var first := Parents(PROGRAM, packs, names[..n], depth).value;
      var last := Value(PROGRAM, packs, names[n], depth).value;
      ParentsAreMet(packs, names[..n], depth, first);
      assert v == Compose(first, last);
      ComposeIsMeet(first, last, v);
      forall i | 0 <= i < |names| ensures IsStricter(v, Value(PROGRAM, packs, names[i], depth).value) {
        if i < n {
          assert names[..n][i] == names[i];
          StrictnessIsPartialOrder(v, first, Value(PROGRAM, packs, names[i], depth).value);
        }
      }
      StrictnessIsPartialOrder(v, first, DEFAULT);
      forall r | IsStricter(r, DEFAULT) && IsBelowAll(r, packs, names, depth) ensures IsStricter(r, v) {
        assert forall i :: 0 <= i < n ==> names[..n][i] == names[i];
        assert IsBelowAll(r, packs, names[..n], depth);
        ComposeIsMeet(first, last, r);
      }
    }
  }

  /** A pack that resolves means the strictest of all it extends, in whatever order and however
      often it extends them. */
  lemma {:induction false} ValueIsStrictest(packs: seq<Pack>, name: string, depth: nat, v: Policy)
    requires Value(PROGRAM, packs, name, depth) == Some(v)
    ensures IsStrictest(packs, name, v)
    decreases depth
  {
    hide Find, OwnPolicy, Parents, Extends, IsAsked, IsStricter, AsksFor, Compose, Builtin;
    match Find(packs, name)
    case None => LeafIsStrictest(packs, name, v);
    case Some(pack) =>
      var parents := Parents(PROGRAM, packs, pack.parents, depth - 1).value;
      forall i, w | 0 <= i < |pack.parents| && Value(PROGRAM, packs, pack.parents[i], depth - 1) == Some(w)
        ensures IsStrictest(packs, pack.parents[i], w)
      {
        ValueIsStrictest(packs, pack.parents[i], depth - 1, w);
      }
      ParentsAreMet(packs, pack.parents, depth - 1, parents);
      var own := OwnPolicy(PROGRAM, pack).value;
      assert v == Compose(parents, own);
      PackIsStrictest(packs, name, pack, depth - 1, parents, own, v);
  }

  lemma LeafIsStrictest(packs: seq<Pack>, name: string, v: Policy)
    requires Find(packs, name).None? && Builtin(name) == Some(v)
    ensures IsStrictest(packs, name, v)
  {
    hide Find, IsStricter, Builtin;
    AskedHere(packs, name, v);
    forall p | IsAsked(packs, name, p) ensures IsStricter(v, p) {
      var x :| Reachable(Extension(packs), name, x) && AsksFor(packs, x, p);
      ReachesItselfOrOn(packs, name, x);
      assert p == v;
      StrictnessIsPartialOrder(v, v, v);
    }
  }

  lemma PackIsStrictest(packs: seq<Pack>, name: string, pack: Pack, depth: nat, parents: Policy, own: Policy, v: Policy)
    requires Find(packs, name) == Some(pack) && OwnPolicy(PROGRAM, pack) == Some(own) && v == Compose(parents, own)
    requires IsStricter(parents, DEFAULT)
    requires forall i :: 0 <= i < |pack.parents| ==>
               var w := Value(PROGRAM, packs, pack.parents[i], depth);
               w.Some? && IsStrictest(packs, pack.parents[i], w.value) && IsStricter(parents, w.value)
    requires forall r :: IsStricter(r, DEFAULT) && IsBelowAll(r, packs, pack.parents, depth) ==> IsStricter(r, parents)
    ensures IsStrictest(packs, name, v)
  {
    hide Find, OwnPolicy, Value, IsStricter, Compose, IsAsked, AsksFor;
    OwnIsAsked(packs, name);
    ComposeIsMeet(parents, own, v);
    forall p | IsAsked(packs, name, p) ensures IsStricter(v, p) {
      if AsksFor(packs, name, p) {
        StrictnessIsPartialOrder(v, parents, DEFAULT);
      } else {
        var y := AskedFurther(packs, name, p);
        var i :| 0 <= i < |pack.parents| && pack.parents[i] == y;
        var w := Value(PROGRAM, packs, pack.parents[i], depth).value;
        StrictnessIsPartialOrder(v, parents, w);
        StrictnessIsPartialOrder(v, w, p);
      }
    }
    forall r | forall p :: IsAsked(packs, name, p) ==> IsStricter(r, p) ensures IsStricter(r, v) {
      AskedHere(packs, name, own);
      AskedHere(packs, name, DEFAULT);
      forall i | 0 <= i < |pack.parents| ensures IsStricter(r, Value(PROGRAM, packs, pack.parents[i], depth).value) {
        forall p | IsAsked(packs, pack.parents[i], p) ensures IsStricter(r, p) {
          AskedByParent(packs, name, pack.parents[i], p);
        }
      }
      assert IsBelowAll(r, packs, pack.parents, depth);
      ComposeIsMeet(parents, own, r);
    }
  }

  lemma AskedFurther(packs: seq<Pack>, name: string, p: Policy) returns (y: string)
    requires IsAsked(packs, name, p) && !AsksFor(packs, name, p)
    ensures Extends(packs, name, y) && IsAsked(packs, y, p)
  {
    hide Extends, AsksFor, Reachable;
    var x :| Reachable(Extension(packs), name, x) && AsksFor(packs, x, p);
    ReachesItselfOrOn(packs, name, x);
    y :| Extends(packs, name, y) && Reachable(Extension(packs), y, x);
  }

  lemma StrictestIsUnique(packs: seq<Pack>, name: string, v: Policy, w: Policy)
    requires IsStrictest(packs, name, v) && IsStrictest(packs, name, w)
    ensures v == w
  {
    hide IsAsked, IsStricter;
    StrictnessIsPartialOrder(v, w, w);
  }

  /** A configured pack always trims and strips control characters: a setting of `false` has no
      effect beside the default. */
  lemma NothingIsSwitchedOff(packs: seq<Pack>, name: string, v: Policy)
    requires Find(packs, name).Some? && IsStrictest(packs, name, v)
    ensures v.trim && v.stripControlChars
  {
    hide IsAsked, Find;
    OwnIsAsked(packs, name);
    AskedHere(packs, name, DEFAULT);
    assert IsStricter(v, DEFAULT);
  }

  // ---------- what the classes allow ----------

  /** `TextCharClass::allows`, with the letters and blanks of Unicode given from outside. */
  predicate Allows(c: CharClass, ch: char, isAlphabetic: char -> bool, isBlank: char -> bool) {
    match c
    case AlphaHyphen => isAlphabetic(ch) || ch == '-'
    case Email => IsAsciiAlphanumeric(ch) || ch in "@._%+-"
    case Identifier => IsAsciiAlphanumeric(ch) || ch in "_-"
    case PersonName => isAlphabetic(ch) || isBlank(ch) || ch in "'-"
  }

  predicate IsAsciiAlphanumeric(ch: char) { '0' <= ch <= '9' || 'a' <= ch <= 'z' || 'A' <= ch <= 'Z' }

  /** Everything one class allows, the other allows. */
  ghost predicate Within(c: CharClass, d: CharClass, isAlphabetic: char -> bool, isBlank: char -> bool) {
    forall ch :: Allows(c, ch, isAlphabetic, isBlank) ==> Allows(d, ch, isAlphabetic, isBlank)
  }

  /** A stricter class allows no more exactly if it is not `alpha_hyphen` under `email` or
      `identifier`: those are ASCII only, and it takes any letter. */
  lemma StricterClassAllowsLess(c: CharClass, d: CharClass, isAlphabetic: char -> bool, isBlank: char -> bool)
    requires ClassBelow(c, d) && isAlphabetic('\U{E9}')
    ensures Within(c, d, isAlphabetic, isBlank) <==> !(c.AlphaHyphen? && (d.Email? || d.Identifier?))
  {
    if c.AlphaHyphen? && (d.Email? || d.Identifier?) {
      assert Allows(c, '\U{E9}', isAlphabetic, isBlank) && !Allows(d, '\U{E9}', isAlphabetic, isBlank);
    }
  }
}
