/** Orderings as Rust's `Ord` returns them, and what sorting by one determines. */
module Order {
  datatype Ordering = Less | Equal | Greater {
    function Then(next: Ordering): Ordering {
      if Equal? then next else this
    }

    function Reverse(): Ordering {
      match this
      case Less => Greater
      case Equal => Equal
      case Greater => Less
    }
  }

  function CompareNat(x: nat, y: nat): Ordering {
    if x < y then Less else if x == y then Equal else Greater
  }

  /** Strings compare by code point, which is the byte order of their UTF-8 form. */
  function CompareString(x: string, y: string): Ordering {
    if x == "" && y == "" then Equal
    else if x == "" then Less
    else if y == "" then Greater
    else if x[0] != y[0] then (if x[0] < y[0] then Less else Greater)
    else CompareString(x[1..], y[1..])
  }

  /** A comparison that ranks the values of a type, with ties. */
  ghost predicate IsTotalPreorder<T(!new)>(cmp: (T, T) -> Ordering) {
    && (forall x, y :: cmp(x, y) == cmp(y, x).Reverse())
    && (forall x, y, z :: !cmp(x, y).Greater? && !cmp(y, z).Greater? ==> !cmp(x, z).Greater?)
  }

  /** ... and without ties between different values. */
  ghost predicate IsTotalOrder<T(!new)>(cmp: (T, T) -> Ordering) {
    IsTotalPreorder(cmp) && forall x, y :: cmp(x, y).Equal? <==> x == y
  }

  lemma {:induction false} CompareStringEqual(x: string, y: string)
    ensures CompareString(x, y).Equal? <==> x == y
    decreases |x|
  {
    if x != "" && y != "" && x[0] == y[0] {
      CompareStringEqual(x[1..], y[1..]);
      assert x == [x[0]] + x[1..] && y == [y[0]] + y[1..];
    }
  }

  lemma {:induction false} CompareStringReverse(x: string, y: string)
    ensures CompareString(x, y) == CompareString(y, x).Reverse()
    decreases |x|
  {
    if x != "" && y != "" && x[0] == y[0] {
      CompareStringReverse(x[1..], y[1..]);
    }
  }

  lemma {:induction false} CompareStringTransitive(x: string, y: string, z: string)
    requires !CompareString(x, y).Greater? && !CompareString(y, z).Greater?
    ensures !CompareString(x, z).Greater?
    decreases |x|
  {
    if x != "" && y != "" && z != "" && x[0] == y[0] && y[0] == z[0] {
      CompareStringTransitive(x[1..], y[1..], z[1..]);
    }
  }

  lemma CompareStringIsTotalOrder()
    ensures IsTotalOrder(CompareString)
  {
    hide CompareString;
    forall x, y ensures CompareString(x, y) == CompareString(y, x).Reverse() {
      CompareStringReverse(x, y);
    }
    forall x, y ensures CompareString(x, y).Equal? <==> x == y {
      CompareStringEqual(x, y);
    }
    forall x, y, z | !CompareString(x, y).Greater? && !CompareString(y, z).Greater?
      ensures !CompareString(x, z).Greater?
    {
      CompareStringTransitive(x, y, z);
    }
  }

  // ---------- sorting ----------

  ghost predicate Sorted<T(!new)>(s: seq<T>, cmp: (T, T) -> Ordering) {
    forall i, j :: 0 <= i < j < |s| ==> !cmp(s[i], s[j]).Greater?
  }

  ghost predicate StrictlySorted<T(!new)>(s: seq<T>, cmp: (T, T) -> Ordering) {
    forall i, j :: 0 <= i < j < |s| ==> cmp(s[i], s[j]).Less?
  }

  /** The place a stable sort gives `x` in front of the sorted `s`. */
  function Insert<T>(x: T, s: seq<T>, cmp: (T, T) -> Ordering): (r: seq<T>)
    ensures multiset(r) == multiset{x} + multiset(s)
  {
    if s == [] then [x]
    else if cmp(x, s[0]).Greater? then
      assert s == [s[0]] + s[1..];
      [s[0]] + Insert(x, s[1..], cmp)
    else [x] + s
  }

  /** A stable sort, as `sort_by` is. */
  function SortBy<T>(s: seq<T>, cmp: (T, T) -> Ordering): (r: seq<T>)
    ensures multiset(r) == multiset(s)
  {
    if s == [] then [] else
      assert s == [s[0]] + s[1..];
      Insert(s[0], SortBy(s[1..], cmp), cmp)
  }

  lemma {:induction false} InsertKeepsSorted<T(!new)>(x: T, s: seq<T>, cmp: (T, T) -> Ordering)
    requires IsTotalPreorder(cmp) && Sorted(s, cmp)
    ensures Sorted(Insert(x, s, cmp), cmp)
  {
    if s != [] {
      if cmp(x, s[0]).Greater? {
        InsertKeepsSorted(x, s[1..], cmp);
        var tail := Insert(x, s[1..], cmp);
        forall y | y in tail ensures !cmp(s[0], y).Greater? {
          assert y in multiset(tail);
        }
      } else {
        forall j | 0 <= j < |s| ensures !cmp(x, s[j]).Greater? {
          assert j > 0 ==> !cmp(s[0], s[j]).Greater?;
        }
      }
    }
  }

  lemma {:induction false} SortBySorts<T(!new)>(s: seq<T>, cmp: (T, T) -> Ordering)
    requires IsTotalPreorder(cmp)
    ensures Sorted(SortBy(s, cmp), cmp)
  {
    if s != [] {
      SortBySorts(s[1..], cmp);
      InsertKeepsSorted(s[0], SortBy(s[1..], cmp), cmp);
    }
  }

  lemma {:induction false} InsertKeepsStrict<T(!new)>(x: T, s: seq<T>, cmp: (T, T) -> Ordering)
    requires IsTotalPreorder(cmp) && StrictlySorted(s, cmp)
    requires forall y :: y in s ==> !cmp(x, y).Equal?
    ensures StrictlySorted(Insert(x, s, cmp), cmp)
  {
    if s != [] {
      if cmp(x, s[0]).Greater? {
        InsertKeepsStrict(x, s[1..], cmp);
        var tail := Insert(x, s[1..], cmp);
        forall y | y in tail ensures cmp(s[0], y).Less? {
          assert y in multiset(tail);
          assert y == x || y in s[1..];
          assert cmp(s[0], x) == cmp(x, s[0]).Reverse();
        }
      } else {
        forall j | 0 <= j < |s| ensures cmp(x, s[j]).Less? {
          assert j > 0 ==> !cmp(s[0], s[j]).Greater?;
        }
      }
    }
  }

  /** Without ties among its elements, a list sorts strictly. */
  lemma {:induction false} SortBySortsStrictly<T(!new)>(s: seq<T>, cmp: (T, T) -> Ordering)
    requires IsTotalPreorder(cmp)
    requires forall i, j :: 0 <= i < j < |s| ==> !cmp(s[i], s[j]).Equal?
    ensures StrictlySorted(SortBy(s, cmp), cmp)
  {
    if s != [] {
      SortBySortsStrictly(s[1..], cmp);
      var tail := SortBy(s[1..], cmp);
      forall y | y in tail ensures !cmp(s[0], y).Equal? {
        assert y in multiset(tail);
        var j :| 0 <= j < |s[1..]| && s[1..][j] == y;
        assert s[j + 1] == y;
      }
      InsertKeepsStrict(s[0], tail, cmp);
    }
  }

  /** Strictly sorted lists with the same elements are the same list. */
  lemma {:induction false} StrictlySortedIsUnique<T(!new)>(s: seq<T>, t: seq<T>, cmp: (T, T) -> Ordering)
    requires IsTotalPreorder(cmp) && StrictlySorted(s, cmp) && StrictlySorted(t, cmp)
    requires forall x :: x in s <==> x in t
    ensures s == t
  {
    assert t != [] ==> t[0] in s;
    if s != [] {
      assert s[0] in t;
      var i :| 0 <= i < |t| && t[i] == s[0];
      var j :| 0 <= j < |s| && s[j] == t[0];
      assert cmp(s[0], t[0]) == cmp(t[0], s[0]).Reverse();
      assert s[0] == t[0];
      forall x ensures x in s[1..] <==> x in t[1..] {
        assert cmp(s[0], s[0]) == cmp(s[0], s[0]).Reverse();
        assert x in s[1..] ==> x in t && x != s[0];
        assert x in t[1..] ==> x in s && x != t[0];
        assert s == [s[0]] + s[1..] && t == [t[0]] + t[1..];
      }
      StrictlySortedIsUnique(s[1..], t[1..], cmp);
    }
  }

  lemma FirstOccurs<T>(s: seq<T>, t: seq<T>) returns (i: nat)
    requires s != [] && multiset(s) == multiset(t)
    ensures i < |t| && t[i] == s[0]
  {
    assert s[0] in multiset(t);
    i :| 0 <= i < |t| && t[i] == s[0];
  }

  lemma TailsArePermutations<T>(s: seq<T>, t: seq<T>)
    requires s != [] && t != [] && s[0] == t[0] && multiset(s) == multiset(t)
    ensures multiset(s[1..]) == multiset(t[1..])
  {
    assert s == [s[0]] + s[1..] && t == [t[0]] + t[1..];
    assert multiset(s[1..]) == multiset(s) - multiset{s[0]};
    assert multiset(t[1..]) == multiset(t) - multiset{t[0]};
  }

  ghost predicate NoTies<T(!new)>(s: seq<T>, cmp: (T, T) -> Ordering) {
    forall x, y :: x in s && y in s && cmp(x, y).Equal? ==> x == y
  }

  lemma {:induction false} SortedWithoutTiesIsUnique<T(!new)>(s: seq<T>, t: seq<T>, cmp: (T, T) -> Ordering)
    requires IsTotalPreorder(cmp) && Sorted(s, cmp) && Sorted(t, cmp)
    requires NoTies(s, cmp) && multiset(s) == multiset(t)
    ensures s == t
  {
    assert |s| == |multiset(s)| == |t|;
    if s != [] {
      var i := FirstOccurs(s, t);
      var j := FirstOccurs(t, s);
      assert !cmp(t[0], s[0]).Greater? && !cmp(s[0], t[0]).Greater? by {
        assert cmp(t[0], t[0]) == cmp(t[0], t[0]).Reverse() && cmp(s[0], s[0]) == cmp(s[0], s[0]).Reverse();
      }
      assert s[0] == t[0];
      TailsArePermutations(s, t);
      SortedWithoutTiesIsUnique(s[1..], t[1..], cmp);
    }
  }

  /** Under a total order, sorting any permutation gives one list. */
  lemma SortedIsUnique<T(!new)>(s: seq<T>, t: seq<T>, cmp: (T, T) -> Ordering)
    requires IsTotalOrder(cmp) && Sorted(s, cmp) && Sorted(t, cmp) && multiset(s) == multiset(t)
    ensures s == t
  {
    SortedWithoutTiesIsUnique(s, t, cmp);
  }

  // ---------- when sorting forgets the order it was given ----------

  /** Without ties between different elements every permutation sorts to the same list. */
  lemma NoTiesOneOrder<T(!new)>(s: seq<T>, t: seq<T>, cmp: (T, T) -> Ordering)
    requires IsTotalPreorder(cmp) && NoTies(s, cmp) && multiset(t) == multiset(s)
    ensures SortBy(t, cmp) == SortBy(s, cmp)
  {
    hide IsTotalPreorder;
    var a, b := SortBy(s, cmp), SortBy(t, cmp);
    SortBySorts(s, cmp);
    SortBySorts(t, cmp);
    forall x ensures x in a <==> x in s { assert x in multiset(a) <==> x in multiset(s); }
    SortedWithoutTiesIsUnique(a, b, cmp);
  }

  lemma {:induction false} SortedStays<T(!new)>(s: seq<T>, cmp: (T, T) -> Ordering)
    requires Sorted(s, cmp)
    ensures SortBy(s, cmp) == s
  {
    if s != [] {
      SortedStays(s[1..], cmp);
      assert s == [s[0]] + s[1..];
      if |s| > 1 { assert !cmp(s[0], s[1]).Greater?; }
    }
  }

  /** Tied elements can be listed in two orders, and a stable sort keeps both. */
  lemma TiesTwoOrders<T(!new)>(s: seq<T>, cmp: (T, T) -> Ordering) returns (r: seq<T>, t: seq<T>)
    requires IsTotalPreorder(cmp) && !NoTies(s, cmp)
    ensures multiset(r) == multiset(t) == multiset(s)
    ensures SortBy(r, cmp) != SortBy(t, cmp)
  {
    hide *;
    r := SortBy(s, cmp);
    SortBySorts(s, cmp);
    var i, j := TiedPositions(s, r, cmp);
    t := r[i := r[j]][j := r[i]];
    SwapPermutes(r, i, j);
    SwapTiedStaysSorted(r, i, j, cmp);
    SortedStays(r, cmp);
    SortedStays(t, cmp);
    SwapChanges(r, i, j);
  }

  lemma TiedPositions<T(!new)>(s: seq<T>, r: seq<T>, cmp: (T, T) -> Ordering) returns (i: nat, j: nat)
    requires !NoTies(s, cmp) && multiset(r) == multiset(s)
    ensures i < |r| && j < |r| && r[i] != r[j] && cmp(r[i], r[j]).Equal?
  {
    var x, y :| x in s && y in s && cmp(x, y).Equal? && x != y;
    assert x in multiset(r) && y in multiset(r);
    i :| 0 <= i < |r| && r[i] == x;
    j :| 0 <= j < |r| && r[j] == y;
  }

  lemma SwapChanges<T>(r: seq<T>, i: nat, j: nat)
    requires i < |r| && j < |r| && r[i] != r[j]
    ensures r[i := r[j]][j := r[i]] != r
  {
    assert r[i := r[j]][j := r[i]][j] == r[i];
  }

  lemma SwapPermutes<T>(r: seq<T>, i: nat, j: nat)
    requires i < |r| && j < |r|
    ensures multiset(r[i := r[j]][j := r[i]]) == multiset(r)
  {}

  lemma SwapTiedStaysSorted<T(!new)>(r: seq<T>, i: nat, j: nat, cmp: (T, T) -> Ordering)
    requires IsTotalPreorder(cmp) && i < |r| && j < |r| && Sorted(r, cmp) && cmp(r[i], r[j]).Equal?
    ensures Sorted(r[i := r[j]][j := r[i]], cmp)
  {
    hide IsTotalPreorder;
    var t := r[i := r[j]][j := r[i]];
    forall a, b | 0 <= a < b < |t| ensures !cmp(t[a], t[b]).Greater? {
      TiedAlike(r[i], r[j], t[b], cmp);
      TiedAlike(r[i], r[j], r[a], cmp);
      assert cmp(t[a], t[b]) == cmp(r[a], t[b]) == cmp(r[a], r[b]);
      assert !cmp(r[a], r[b]).Greater?;
    }
  }

  /** Tied elements compare alike with every third. */
  lemma TiedAlike<T(!new)>(x: T, y: T, z: T, cmp: (T, T) -> Ordering)
    requires IsTotalPreorder(cmp) && cmp(x, y).Equal?
    ensures cmp(x, z) == cmp(y, z) && cmp(z, x) == cmp(z, y)
  {
    assert cmp(y, x) == cmp(x, y).Reverse() && cmp(z, x) == cmp(x, z).Reverse() && cmp(z, y) == cmp(y, z).Reverse();
    assert cmp(x, z) == cmp(z, x).Reverse() && cmp(y, z) == cmp(z, y).Reverse();
    assert !cmp(y, z).Greater? ==> !cmp(x, z).Greater?;
    assert !cmp(x, z).Greater? ==> !cmp(y, z).Greater?;
    assert !cmp(z, x).Greater? ==> !cmp(z, y).Greater?;
    assert !cmp(z, y).Greater? ==> !cmp(z, x).Greater?;
  }
}
