/** Registry versions: parsing, precedence and the order of lists (`registry.rs`), against
    section 11 of Semantic Versioning 2.0.0. */
module Versions {
  import opened Wrappers
  import opened Text
  import opened Order

  datatype PreId = Numeric(number: nat) | Textual(text: string)

  datatype SemVer = SemVer(major: nat, minor: nat, patch: nat, pre: seq<PreId>)

  // ---------- parsing ----------

  /** `split(c)`: at least one piece. */
  function SplitAll(s: string, c: char): (pieces: seq<string>)
    ensures |pieces| > 0
    decreases |s|
  {
    match SplitOnce(s, c)
    case None => [s]
    case Some((left, right)) => [left] + SplitAll(right, c)
  }

  /** `parse_numeric_identifier`. */
  function ParseNumeric(raw: string): Option<nat> {
    if raw == "" || (|raw| > 1 && raw[0] == '0') then None else ParseUnsigned(raw, U64_MAX)
  }

  predicate AllDigits(s: string) { forall c :: c in s ==> IsDigit(c) }

  predicate AllIdChars(s: string) { forall c :: c in s ==> IsAlphanumeric(c) || c == '-' }

  /** `parse_prerelease_identifier`. */
  function ParsePreId(raw: string): Option<PreId> {
    if raw == "" then None
    else if AllDigits(raw) then
      var n := ParseNumeric(raw);
      if n.Some? then Some(Numeric(n.value)) else None
    else if AllIdChars(raw) then Some(Textual(raw))
    else None
  }

  function ParsePreIds(raws: seq<string>): Option<seq<PreId>> {
    if |raws| == 0 then Some([])
    else
      var first, rest := ParsePreId(raws[0]), ParsePreIds(raws[1..]);
      if first.Some? && rest.Some? then Some([first.value] + rest.value) else None
  }

  function ParseCore(core: string, pre: seq<PreId>): Option<SemVer> {
    var parts := SplitAll(core, '.');
    if |parts| != 3 then None
    else
      var major, minor, patch := ParseNumeric(parts[0]), ParseNumeric(parts[1]), ParseNumeric(parts[2]);
      if major.Some? && minor.Some? && patch.Some?
      then Some(SemVer(major.value, minor.value, patch.value, pre))
      else None
  }

  function WithPre(core: string, pre: string): Option<SemVer> {
    var ids := if pre == "" then Some([]) else ParsePreIds(SplitAll(pre, '.'));
    if ids.None? then None else ParseCore(core, ids.value)
  }

  /** `RegistrySemVer::parse`. */
  function Parse(version: string): Option<SemVer> {
    var public := Before(version, '+');
    match SplitOnce(public, '-')
    case None => WithPre(public, "")
    case Some((core, pre)) => WithPre(core, pre)
  }

  // ---------- the orderings of the program ----------

  function ComparePreId(x: PreId, y: PreId): Ordering {
    match (x, y)
    case (Numeric(m), Numeric(n)) => CompareNat(m, n)
    case (Numeric(_), Textual(_)) => Less
    case (Textual(_), Numeric(_)) => Greater
    case (Textual(s), Textual(t)) => CompareString(s, t)
  }

  /** Slices compare element by element, then by length. */
  function CompareIds(x: seq<PreId>, y: seq<PreId>): Ordering {
    if x == [] && y == [] then Equal
    else if x == [] then Less
    else if y == [] then Greater
    else ComparePreId(x[0], y[0]).Then(CompareIds(x[1..], y[1..]))
  }

  function ComparePre(x: seq<PreId>, y: seq<PreId>): Ordering {
    if x == [] && y == [] then Equal
    else if x == [] then Greater
    else if y == [] then Less
    else CompareIds(x, y)
  }

  function CompareSemVer(x: SemVer, y: SemVer): Ordering {
    CompareNat(x.major, y.major).Then(CompareNat(x.minor, y.minor)).Then(CompareNat(x.patch, y.patch))
    .Then(ComparePre(x.pre, y.pre))
  }

  /** `compare_registry_versions`: parsed versions first, by precedence. */
  function CompareVersions(left: string, right: string): Ordering {
    match (Parse(left), Parse(right))
    case (Some(x), Some(y)) => CompareSemVer(x, y)
    case (Some(_), None) => Less
    case (None, Some(_)) => Greater
    case (None, None) => CompareString(left, right)
  }

  /** The order of `sort_registry_versions`. */
  function CompareForSort(left: string, right: string): Ordering {
    CompareVersions(left, right).Then(CompareString(left, right))
  }

  // ---------- section 11, stated by first differences ----------

  ghost predicate TextPrecedes(s: string, t: string) {
    exists k :: 0 <= k <= |s| && k <= |t| && s[..k] == t[..k]
                && (if k < |s| && k < |t| then s[k] < t[k] else k == |s| < |t|)
  }

  ghost predicate IdPrecedes(x: PreId, y: PreId) {
    match (x, y)
    case (Numeric(m), Numeric(n)) => m < n
    case (Numeric(_), Textual(_)) => true
    case (Textual(_), Numeric(_)) => false
    case (Textual(s), Textual(t)) => TextPrecedes(s, t)
  }

  ghost predicate IdsPrecede(x: seq<PreId>, y: seq<PreId>) {
    exists k :: DiffersFirstAt(x, y, k)
  }

  ghost predicate DiffersFirstAt(x: seq<PreId>, y: seq<PreId>, k: int) {
    0 <= k <= |x| && k <= |y| && x[..k] == y[..k]
    && (if k < |x| && k < |y| then IdPrecedes(x[k], y[k]) else k == |x| < |y|)
  }

  ghost predicate Precedes(x: SemVer, y: SemVer) {
    if x.major != y.major then x.major < y.major
    else if x.minor != y.minor then x.minor < y.minor
    else if x.patch != y.patch then x.patch < y.patch
    else if x.pre == [] then false
    else y.pre == [] || IdsPrecede(x.pre, y.pre)
  }

  lemma {:induction false} TextOrderIsSection11(s: string, t: string)
    ensures CompareString(s, t).Less? <==> TextPrecedes(s, t)
    decreases |s|
  {
    if s != "" && t != "" && s[0] == t[0] {
      TextOrderIsSection11(s[1..], t[1..]);
      if TextPrecedes(s[1..], t[1..]) {
        var k :| 0 <= k <= |s[1..]| && k <= |t[1..]| && s[1..][..k] == t[1..][..k]
                 && (if k < |s[1..]| && k < |t[1..]| then s[1..][k] < t[1..][k] else k == |s[1..]| < |t[1..]|);
        assert s[..k + 1] == [s[0]] + s[1..][..k] && t[..k + 1] == [t[0]] + t[1..][..k];
      }
      if TextPrecedes(s, t) {
        var k :| 0 <= k <= |s| && k <= |t| && s[..k] == t[..k]
                 && (if k < |s| && k < |t| then s[k] < t[k] else k == |s| < |t|);
        assert s[1..][..k - 1] == s[..k][1..] && t[1..][..k - 1] == t[..k][1..];
      }
    } else {
      assert s[..0] == t[..0];
      if TextPrecedes(s, t) {
        var k :| 0 <= k <= |s| && k <= |t| && s[..k] == t[..k]
                 && (if k < |s| && k < |t| then s[k] < t[k] else k == |s| < |t|);
        HeadsAgree(s, t, k);
      }
    }
  }

  lemma HeadsAgree(s: string, t: string, k: nat)
    requires k <= |s| && k <= |t| && s[..k] == t[..k]
    ensures k == 0 || s[0] == t[0]
  {
    if k > 0 { assert s[..k][0] == t[..k][0]; }
  }

  lemma IdOrderIsSection11(x: PreId, y: PreId)
    ensures ComparePreId(x, y).Less? <==> IdPrecedes(x, y)
    ensures ComparePreId(x, y).Equal? <==> x == y
  {
    hide CompareString, TextPrecedes;
    if x.Textual? && y.Textual? {
      TextOrderIsSection11(x.text, y.text);
      CompareStringEqual(x.text, y.text);
    }
  }

  lemma {:induction false} IdsOrderIsSection11(x: seq<PreId>, y: seq<PreId>)
    ensures CompareIds(x, y).Less? <==> IdsPrecede(x, y)
    ensures CompareIds(x, y).Equal? <==> x == y
    decreases |x|
  {
    hide ComparePreId, IdPrecedes;
    if x != [] && y != [] {
      IdOrderIsSection11(x[0], y[0]);
      IdsOrderIsSection11(x[1..], y[1..]);
      assert x == [x[0]] + x[1..] && y == [y[0]] + y[1..];
      FirstDifferenceShifts(x, y);
    } else {
      assert x[..0] == y[..0];
      if x == [] && y != [] { assert DiffersFirstAt(x, y, 0); }
    }
  }

  lemma FirstDifferenceShifts(x: seq<PreId>, y: seq<PreId>)
    requires x != [] && y != []
    ensures IdsPrecede(x, y) <==>
            (IdPrecedes(x[0], y[0]) && x[0] != y[0]) || (x[0] == y[0] && IdsPrecede(x[1..], y[1..]))
  {
    hide IdPrecedes;
    IdOrderIsSection11(x[0], y[0]);
    if IdPrecedes(x[0], y[0]) && x[0] != y[0] {
      assert DiffersFirstAt(x, y, 0);
    }
    if x[0] == y[0] && IdsPrecede(x[1..], y[1..]) {
      var k :| DiffersFirstAt(x[1..], y[1..], k);
      assert x[..k + 1] == [x[0]] + x[1..][..k] && y[..k + 1] == [y[0]] + y[1..][..k];
      assert DiffersFirstAt(x, y, k + 1);
    }
    if IdsPrecede(x, y) {
      var k :| DiffersFirstAt(x, y, k);
      if k > 0 {
        assert x[..k][0] == y[..k][0];
        assert x[1..][..k - 1] == x[..k][1..] && y[1..][..k - 1] == y[..k][1..];
        assert DiffersFirstAt(x[1..], y[1..], k - 1);
      }
    }
  }

  /** The program's order of parsed versions is the precedence of section 11, and only
      equal versions tie. */
  lemma OrderIsSection11(x: SemVer, y: SemVer)
    ensures CompareSemVer(x, y).Less? <==> Precedes(x, y)
    ensures CompareSemVer(x, y).Greater? <==> Precedes(y, x)
    ensures CompareSemVer(x, y).Equal? <==> x == y
  {
    hide CompareIds, IdsPrecede;
    IdsOrderIsSection11(x.pre, y.pre);
    IdsOrderIsSection11(y.pre, x.pre);
    CompareIdsLaws(x.pre, y.pre, y.pre);
  }

  // ---------- a total preorder on all strings ----------

  lemma IdLaws(x: PreId, y: PreId, z: PreId)
    ensures ComparePreId(x, y) == ComparePreId(y, x).Reverse()
    ensures !ComparePreId(x, y).Greater? && !ComparePreId(y, z).Greater? ==> !ComparePreId(x, z).Greater?
    ensures ComparePreId(x, y).Equal? <==> x == y
  {
    hide CompareString;
    CompareStringIsTotalOrder();
  }

  lemma {:induction false} CompareIdsLaws(x: seq<PreId>, y: seq<PreId>, z: seq<PreId>)
    ensures CompareIds(x, y) == CompareIds(y, x).Reverse()
    ensures !CompareIds(x, y).Greater? && !CompareIds(y, z).Greater? ==> !CompareIds(x, z).Greater?
    ensures CompareIds(x, y).Equal? <==> x == y
    decreases |x| + |y| + |z|
  {
    hide ComparePreId;
    if x != [] && y != [] {
      IdLaws(x[0], y[0], y[0]);
      assert x == [x[0]] + x[1..] && y == [y[0]] + y[1..];
      if z == [] {
        CompareIdsLaws(x[1..], y[1..], []);
      } else {
        IdLaws(x[0], y[0], z[0]);
        IdLaws(y[0], z[0], x[0]);
        IdLaws(z[0], x[0], y[0]);
        CompareIdsLaws(x[1..], y[1..], z[1..]);
      }
    }
  }

  lemma SemVerLaws(x: SemVer, y: SemVer, z: SemVer)
    ensures CompareSemVer(x, y) == CompareSemVer(y, x).Reverse()
    ensures !CompareSemVer(x, y).Greater? && !CompareSemVer(y, z).Greater? ==> !CompareSemVer(x, z).Greater?
    ensures CompareSemVer(x, y).Equal? <==> x == y
  {
    hide CompareIds;
    CompareIdsLaws(x.pre, y.pre, z.pre);
    CompareIdsLaws(y.pre, z.pre, x.pre);
    CompareIdsLaws(z.pre, x.pre, y.pre);
  }

  lemma VersionLaws(x: string, y: string, z: string)
    ensures CompareVersions(x, y) == CompareVersions(y, x).Reverse()
    ensures !CompareVersions(x, y).Greater? && !CompareVersions(y, z).Greater? ==> !CompareVersions(x, z).Greater?
    ensures CompareVersions(x, y).Equal? <==> (if Parse(x).Some? then Parse(x) == Parse(y) else x == y)
  {
    hide CompareString, CompareSemVer, Parse;
    CompareStringIsTotalOrder();
    if Parse(x).Some? && Parse(y).Some? {
      SemVerLaws(Parse(x).value, Parse(y).value, if Parse(z).Some? then Parse(z).value else Parse(y).value);
    }
  }

  lemma CompareVersionsIsTotalPreorder()
    ensures IsTotalPreorder(CompareVersions)
  {
    hide CompareVersions;
    forall x, y ensures CompareVersions(x, y) == CompareVersions(y, x).Reverse() { VersionLaws(x, y, y); }
    forall x, y, z | !CompareVersions(x, y).Greater? && !CompareVersions(y, z).Greater?
      ensures !CompareVersions(x, z).Greater?
    {
      VersionLaws(x, y, z);
    }
  }

  lemma SortLaws(x: string, y: string, z: string)
    ensures CompareForSort(x, y) == CompareForSort(y, x).Reverse()
    ensures !CompareForSort(x, y).Greater? && !CompareForSort(y, z).Greater? ==> !CompareForSort(x, z).Greater?
    ensures CompareForSort(x, y).Equal? <==> x == y
  {
    hide CompareString, CompareVersions;
    CompareStringIsTotalOrder();
    CompareVersionsIsTotalPreorder();
    assert CompareVersions(x, x) == CompareVersions(x, x).Reverse();
  }

  /** With the string tie-break the order is total. */
  lemma CompareForSortIsTotalOrder()
    ensures IsTotalOrder(CompareForSort)
  {
    hide CompareForSort;
    forall x, y ensures CompareForSort(x, y) == CompareForSort(y, x).Reverse() { SortLaws(x, y, y); }
    forall x, y ensures CompareForSort(x, y).Equal? <==> x == y { SortLaws(x, y, y); }
    forall x, y, z | !CompareForSort(x, y).Greater? && !CompareForSort(y, z).Greater?
      ensures !CompareForSort(x, z).Greater?
    {
      SortLaws(x, y, z);
    }
  }

  // ---------- lists of versions ----------

  /** `sort_registry_versions`. */
  function SortVersions(versions: seq<string>): seq<string> { SortBy(versions, CompareForSort) }

  /** The sorted list does not depend on the order in which a directory is read. */
  lemma SortVersionsIgnoresOrder(a: seq<string>, b: seq<string>)
    requires multiset(a) == multiset(b)
    ensures SortVersions(a) == SortVersions(b)
  {
    hide CompareForSort, SortBy;
    CompareForSortIsTotalOrder();
    SortBySorts(a, CompareForSort);
    SortBySorts(b, CompareForSort);
    SortedIsUnique(SortVersions(a), SortVersions(b), CompareForSort);
  }

  datatype Entry = Entry(name: string, hasManifest: bool)

  predicate Installable(e: Entry) { e.hasManifest && Parse(e.name).Some? }

  /** `latest_version` on a directory listing: a parsed version no other one exceeds, and
      the same one in whatever order the directory is read. */
  method LatestVersion(entries: seq<Entry>) returns (latest: Option<string>)
    ensures latest.None? <==> forall e :: e in entries ==> !Installable(e)
    ensures latest.Some? ==> exists e :: e in entries && Installable(e) && e.name == latest.value
    ensures latest.Some? ==> Parse(latest.value).Some? && forall e :: e in entries && Installable(e) ==>
              !Precedes(Parse(latest.value).value, Parse(e.name).value)
              && !CompareForSort(e.name, latest.value).Greater?
  {
    hide CompareForSort, SortBy, Parse, Precedes;
    var versions: seq<string> := [];
    for i := 0 to |entries|
      invariant forall j :: 0 <= j < i && Installable(entries[j]) ==> entries[j].name in versions
      invariant forall v :: v in versions ==> exists e :: e in entries && Installable(e) && e.name == v
    {
      if entries[i].hasManifest && Parse(entries[i].name).Some? {
        assert entries[i] in entries;
        versions := versions + [entries[i].name];
      }
    }
    var sorted := SortVersions(versions);
    forall v ensures v in sorted <==> v in versions {
      assert v in multiset(sorted) <==> v in multiset(versions);
    }
    if sorted == [] {
      forall e | e in entries ensures !Installable(e) {
        assert Installable(e) ==> e.name in sorted;
      }
      return None;
    }
    CompareForSortIsTotalOrder();
    SortBySorts(versions, CompareForSort);
    var last := sorted[|sorted| - 1];
    assert last in versions;
    latest := Some(last);
    forall e | e in entries && Installable(e)
      ensures !CompareForSort(e.name, last).Greater? && !Precedes(Parse(last).value, Parse(e.name).value)
    {
      assert e.name in sorted;
      var i :| 0 <= i < |sorted| && sorted[i] == e.name;
      NotExceeded(e.name, last);
    }
  }

  lemma NotExceeded(v: string, last: string)
    requires Parse(v).Some? && Parse(last).Some? && !CompareForSort(v, last).Greater?
    ensures !Precedes(Parse(last).value, Parse(v).value)
  {
    hide CompareSemVer, Parse, Precedes, CompareString;
    OrderIsSection11(Parse(v).value, Parse(last).value);
  }

  // ---------- the index, which sorts without the tie-break ----------

  /** `RegistryIndexVersion`: what the index lists of one version directory. */
  datatype IndexVersion = IndexVersion(version: string, language: string, manifestSchema: nat, contentHash: string,
                                       fileCount: nat, metadataPath: seq<string>)

  /** The order of the index: by version alone, whatever else the records hold. */
  function CompareIndexed(left: IndexVersion, right: IndexVersion): Ordering {
    CompareVersions(left.version, right.version)
  }

  function SortIndex(versions: seq<IndexVersion>): seq<IndexVersion> { SortBy(versions, CompareIndexed) }

  lemma CompareIndexedIsTotalPreorder()
    ensures IsTotalPreorder(CompareIndexed)
  {
    hide CompareVersions;
    CompareVersionsIsTotalPreorder();
  }

  /** Versions tie when they parse alike, or are the same text. */
  predicate TieAsVersions(x: string, y: string) {
    if Parse(x).Some? then Parse(x) == Parse(y) else x == y
  }

  /** The index order is independent of the order in which directories are read exactly when
      no two different records hold versions that tie. */
  lemma IndexOrderIsUnique(s: seq<IndexVersion>)
    ensures (forall t :: multiset(t) == multiset(s) ==> SortIndex(t) == SortIndex(s)) <==>
            (forall x, y :: x in s && y in s && TieAsVersions(x.version, y.version) ==> x == y)
  {
    hide CompareVersions, SortBy, TieAsVersions;
    CompareIndexedIsTotalPreorder();
    TiesOfRecords(s);
    if NoTies(s, CompareIndexed) {
      forall t | multiset(t) == multiset(s) ensures SortIndex(t) == SortIndex(s) {
        NoTiesOneOrder(s, t, CompareIndexed);
      }
    } else {
      var r, t := TiesTwoOrders(s, CompareIndexed);
      assert SortIndex(r) != SortIndex(t);
    }
  }

  lemma TiesOfRecords(s: seq<IndexVersion>)
    ensures NoTies(s, CompareIndexed) <==>
            (forall x, y :: x in s && y in s && TieAsVersions(x.version, y.version) ==> x == y)
  {
    hide CompareVersions, TieAsVersions;
    forall x: IndexVersion, y: IndexVersion
      ensures CompareIndexed(x, y).Equal? <==> TieAsVersions(x.version, y.version)
    {
      VersionTies(x.version, y.version);
    }
  }

  lemma VersionTies(x: string, y: string)
    ensures CompareVersions(x, y).Equal? <==> TieAsVersions(x, y)
  {
    hide CompareVersions, Parse;
    VersionLaws(x, y, y);
  }

  /** Build metadata does not order versions, so `1.0.0+a` and `1.0.0+b` are listed in the
      order in which they were read. */
  lemma BuildMetadataTies(x: IndexVersion, y: IndexVersion)
    requires x.version == "1.0.0+a" && y.version == "1.0.0+b"
    ensures SortIndex([x, y]) == [x, y] && SortIndex([y, x]) == [y, x]
  {
    hide Parse, SortIndex;
    assert "1.0.0" + "+" + "a" == "1.0.0+a" && "1.0.0" + "+" + "b" == "1.0.0+b";
    BuildMetadataIsIgnored("1.0.0", "a");
    BuildMetadataIsIgnored("1.0.0", "b");
    FirstReleaseParses();
    SortedPair(x, y);
    SortedPair(y, x);
  }

  lemma FirstReleaseParses()
    ensures Parse("1.0.0") == Some(SemVer(1, 0, 0, []))
  {
    hide Parse, ValidId;
    var v := SemVer(1, 0, 0, []);
    ParsePrinted(v);
    assert Decimal(1) == "1" && Decimal(0) == "0";
    assert Print(v) == "1.0.0";
  }

  lemma SortedPair(x: IndexVersion, y: IndexVersion)
    requires TieAsVersions(x.version, y.version)
    ensures SortIndex([x, y]) == [x, y]
  {
    hide CompareVersions, TieAsVersions, SortBy;
    VersionTies(x.version, y.version);
    SortedStays([x, y], CompareIndexed);
  }

  lemma BuildMetadataIsIgnored(public: string, build: string)
    requires '+' !in public
    ensures Parse(public + "+" + build) == Parse(public)
  {
    hide WithPre, SplitOnce;
    BeforeAt(public, '+', build);
    assert public + "+" + build == public + ['+'] + build;
  }

  // ---------- the text of a version ----------

  function PrintId(id: PreId): string { if id.Numeric? then Decimal(id.number) else id.text }

  function PrintIds(ids: seq<PreId>): string {
    if |ids| == 0 then "" else if |ids| == 1 then PrintId(ids[0]) else PrintId(ids[0]) + "." + PrintIds(ids[1..])
  }

  function PrintCore(v: SemVer): string { Decimal(v.major) + "." + Decimal(v.minor) + "." + Decimal(v.patch) }

  function Print(v: SemVer): string {
    if v.pre == [] then PrintCore(v) else PrintCore(v) + "-" + PrintIds(v.pre)
  }

  predicate ValidId(id: PreId) {
    match id
    case Numeric(n) => n <= U64_MAX
    case Textual(s) => s != "" && AllIdChars(s) && !AllDigits(s)
  }

  /** The versions of section 2 and 9 whose numbers fit in 64 bits. */
  predicate Valid(v: SemVer) {
    v.major <= U64_MAX && v.minor <= U64_MAX && v.patch <= U64_MAX && forall id :: id in v.pre ==> ValidId(id)
  }

  lemma DecimalParses(n: nat)
    requires n <= U64_MAX
    ensures ParseNumeric(Decimal(n)) == Some(n)
  {
    var s := Decimal(n);
    assert s[0] in s;
  }

  lemma DigitsAreNoSeparators(s: string)
    requires AllDigits(s)
    ensures '.' !in s && '-' !in s && '+' !in s
  {}

  lemma IdParses(id: PreId)
    requires ValidId(id)
    ensures ParsePreId(PrintId(id)) == Some(id) && '.' !in PrintId(id) && '+' !in PrintId(id)
  {
    hide Decimal, ParseUnsigned;
    if id.Numeric? { DecimalParses(id.number); }
  }

  lemma {:induction false} IdsParse(ids: seq<PreId>)
    requires ids != [] && forall id :: id in ids ==> ValidId(id)
    ensures ParsePreIds(SplitAll(PrintIds(ids), '.')) == Some(ids)
    ensures PrintIds(ids) != "" && '+' !in PrintIds(ids)
    decreases |ids|
  {
    hide *;
    if |ids| == 1 {
      OneIdParses(ids[0]);
      assert ids == [ids[0]];
    } else {
      IdsParse(ids[1..]);
      MoreIdsParse(ids[0], ids[1..]);
      assert ids == [ids[0]] + ids[1..];
    }
  }

  lemma OneIdParses(id: PreId)
    requires ValidId(id)
    ensures ParsePreIds(SplitAll(PrintIds([id]), '.')) == Some([id])
    ensures PrintIds([id]) != "" && '+' !in PrintIds([id])
  {
    hide PrintId, ParsePreId, ValidId, SplitAll;
    PrintedId(id);
    OnePiece(PrintId(id));
    ConsParses(PrintId(id), [], id, []);
    assert [PrintId(id)] + [] == [PrintId(id)] && [id] + [] == [id];
  }

  lemma MoreIdsParse(id: PreId, ids: seq<PreId>)
    requires ids != [] && ValidId(id) && ParsePreIds(SplitAll(PrintIds(ids), '.')) == Some(ids) && '+' !in PrintIds(ids)
    ensures ParsePreIds(SplitAll(PrintIds([id] + ids), '.')) == Some([id] + ids)
    ensures PrintIds([id] + ids) != "" && '+' !in PrintIds([id] + ids)
  {
    hide PrintId, ParsePreId, ValidId, SplitAll, ParsePreIds;
    PrintedId(id);
    assert ([id] + ids)[1..] == ids;
    MorePieces(PrintId(id), PrintIds(ids));
    ConsParses(PrintId(id), SplitAll(PrintIds(ids), '.'), id, ids);
  }

  lemma PrintedId(id: PreId)
    requires ValidId(id)
    ensures ParsePreId(PrintId(id)) == Some(id) && PrintId(id) != "" && '.' !in PrintId(id) && '+' !in PrintId(id)
  {
    hide PrintId, ParsePreId, ValidId;
    IdParses(id);
    EmptyIsNoId();
  }

  lemma OnePiece(s: string)
    requires '.' !in s
    ensures SplitAll(s, '.') == [s]
  {}

  lemma MorePieces(s: string, rest: string)
    requires '.' !in s
    ensures SplitAll(s + "." + rest, '.') == [s] + SplitAll(rest, '.')
  {
    hide SplitOnce;
    SplitOnceAt(s, '.', rest);
    assert s + "." + rest == s + ['.'] + rest;
  }

  lemma ConsParses(raw: string, raws: seq<string>, id: PreId, ids: seq<PreId>)
    requires ParsePreId(raw) == Some(id) && ParsePreIds(raws) == Some(ids)
    ensures ParsePreIds([raw] + raws) == Some([id] + ids)
  {
    hide ParsePreId;
    assert ([raw] + raws)[1..] == raws;
  }

  lemma EmptyIsNoId()
    ensures ParsePreId("").None?
  {}

  lemma CoreParses(v: SemVer)
    requires Valid(v)
    ensures ParseCore(PrintCore(v), v.pre) == Some(v)
    ensures '-' !in PrintCore(v) && '+' !in PrintCore(v)
  {
    hide Decimal, ParseNumeric, ValidId, SplitOnce;
    var a, b, c := Decimal(v.major), Decimal(v.minor), Decimal(v.patch);
    DecimalParses(v.major);
    DecimalParses(v.minor);
    DecimalParses(v.patch);
    DigitsAreNoSeparators(a);
    DigitsAreNoSeparators(b);
    DigitsAreNoSeparators(c);
    assert PrintCore(v) == a + ['.'] + (b + ['.'] + c);
    SplitOnceAt(a, '.', b + ['.'] + c);
    SplitOnceAt(b, '.', c);
    assert SplitAll(c, '.') == [c];
    assert SplitAll(b + ['.'] + c, '.') == [b] + [c];
    assert SplitAll(PrintCore(v), '.') == [a, b, c];
  }

  /** Every valid version reads back from its text. */
  lemma ParsePrinted(v: SemVer)
    requires Valid(v)
    ensures Parse(Print(v)) == Some(v)
  {
    hide PrintCore, PrintIds, ParseCore, ParsePreIds, SplitAll, ValidId, Find;
    CoreParses(v);
    if v.pre != [] {
      IdsParse(v.pre);
      SplitOnceAt(PrintCore(v), '-', PrintIds(v.pre));
      assert Print(v) == PrintCore(v) + ['-'] + PrintIds(v.pre);
    }
  }

  // ---------- which texts parse ----------

  lemma OneDigit(c: char)
    requires IsDigit(c)
    ensures Decimal(DigitValue(c)) == [c]
  {}

  lemma OneMoreDigit(n: nat, c: char)
    requires n > 0 && IsDigit(c)
    ensures Decimal(10 * n + DigitValue(c)) == Decimal(n) + [c]
  {
    var m := 10 * n + DigitValue(c);
    assert m / 10 == n && m % 10 == DigitValue(c);
    assert "0123456789"[DigitValue(c)] == c;
  }

  /** Digits without a leading zero are the text of their value. */
  lemma {:induction false} DigitsAreDecimal(s: string)
    requires s != "" && AllDigits(s) && (|s| > 1 ==> s[0] != '0')
    ensures Decimal(DecimalValue(s)) == s
    ensures s[0] != '0' ==> DecimalValue(s) > 0
    decreases |s|
  {
    hide Decimal;
    var front, last := s[..|s| - 1], s[|s| - 1];
    assert s == front + [last] && last in s;
    if front == "" {
      OneDigit(last);
    } else {
      DigitsAreDecimal(front);
      OneMoreDigit(DecimalValue(front), last);
    }
  }

  lemma NumericIsDecimal(raw: string)
    requires '+' !in raw && ParseNumeric(raw).Some?
    ensures raw == Decimal(ParseNumeric(raw).value) && ParseNumeric(raw).value <= U64_MAX
  {
    hide Decimal, DecimalValue;
    assert raw[0] in raw;
    DigitsAreDecimal(raw);
  }

  lemma IdIsPrinted(raw: string)
    requires '+' !in raw && ParsePreId(raw).Some?
    ensures raw == PrintId(ParsePreId(raw).value) && ValidId(ParsePreId(raw).value)
  {
    hide Decimal, ParseNumeric, AllIdChars, AllDigits;
    if AllDigits(raw) { NumericIsDecimal(raw); }
  }

  lemma {:induction false} IdsArePrinted(pre: string)
    requires '+' !in pre && ParsePreIds(SplitAll(pre, '.')).Some?
    ensures var ids := ParsePreIds(SplitAll(pre, '.')).value;
            ids != [] && pre == PrintIds(ids) && forall id :: id in ids ==> ValidId(id)
    decreases |pre|
  {
    hide ParsePreId, PrintId, ValidId;
    var raws := SplitAll(pre, '.');
    var ids := ParsePreIds(raws).value;
    match SplitOnce(pre, '.')
    case None =>
      assert raws[1..] == [];
      IdIsPrinted(pre);
      assert ids == [ParsePreId(pre).value];
    case Some((left, right)) =>
      assert pre == left + ['.'] + right;
      assert raws[0] == left && raws[1..] == SplitAll(right, '.');
      IdIsPrinted(left);
      IdsArePrinted(right);
      assert ids[1..] == ParsePreIds(raws[1..]).value;
      assert ids[0] == ParsePreId(left).value;
  }

  lemma CoreIsPrinted(core: string, pre: seq<PreId>)
    requires '+' !in core && ParseCore(core, pre).Some?
    ensures var v := ParseCore(core, pre).value;
            core == PrintCore(v) && v.pre == pre && v.major <= U64_MAX && v.minor <= U64_MAX && v.patch <= U64_MAX
  {
    hide ParseNumeric, Decimal, SplitOnce;
    var parts := SplitAll(core, '.');
    var a, b, c := ThreePieces(core);
    NumericIsDecimal(a);
    NumericIsDecimal(b);
    NumericIsDecimal(c);
  }

  lemma ThreePieces(core: string) returns (a: string, b: string, c: string)
    requires |SplitAll(core, '.')| == 3
    ensures SplitAll(core, '.') == [a, b, c] && core == a + "." + b + "." + c
  {
    hide Find;
    var first := SplitOnce(core, '.').value;
    a := first.0;
    assert SplitAll(core, '.')[1..] == SplitAll(first.1, '.');
    var second := SplitOnce(first.1, '.').value;
    b := second.0;
    assert SplitAll(first.1, '.')[1..] == SplitAll(second.1, '.');
    c := second.1;
    assert SplitOnce(c, '.').None?;
  }

  /** Exactly these texts parse: up to the first `+`, the text of a version whose numbers fit
      in 64 bits, or such a text without a pre-release and with a hyphen behind it. What
      follows the `+` does not matter, where section 10 asks for identifiers. */
  lemma ParseAccepts(s: string, v: SemVer)
    ensures Parse(s) == Some(v) <==> Valid(v) && IsWritten(Before(s, '+'), v)
  {
    hide Valid, IsWritten, Parse, Before;
    var public := Before(s, '+');
    PublicDecides(s);
    if Parse(s) == Some(v) { ParsedIsPrinted(public); }
    if Valid(v) && IsWritten(public, v) { WrittenParses(public, v); }
  }

  /** The text of a version, or of a release with a hyphen behind it. */
  predicate IsWritten(public: string, v: SemVer) {
    public == Print(v) || (v.pre == [] && public == Print(v) + "-")
  }

  lemma PublicDecides(s: string)
    ensures Parse(s) == Parse(Before(s, '+')) && '+' !in Before(s, '+')
  {
    hide Find, SplitOnce, WithPre;
  }

  lemma ParsedIsPrinted(public: string)
    requires '+' !in public && Parse(public).Some?
    ensures Valid(Parse(public).value) && IsWritten(public, Parse(public).value)
  {
    hide ParseCore, ParsePreIds, SplitAll, ValidId, PrintCore, PrintIds, Find;
    match SplitOnce(public, '-')
    case None =>
      CoreIsPrinted(public, []);
    case Some((core, pre)) =>
      assert public == core + ['-'] + pre;
      if pre == "" {
        CoreIsPrinted(core, []);
        assert core + ['-'] + pre == core + "-";
      } else {
        IdsArePrinted(pre);
        CoreIsPrinted(core, ParsePreIds(SplitAll(pre, '.')).value);
      }
  }

  lemma WrittenParses(public: string, v: SemVer)
    requires Valid(v) && IsWritten(public, v)
    ensures Parse(public) == Some(v)
  {
    hide PrintCore, Parse, Valid;
    ParsePrinted(v);
    if public != Print(v) {
      CoreParses(v);
      TrailingHyphenIsIgnored(PrintCore(v));
    }
  }

  /** The parser accepts a little more than section 9: a hyphen with nothing behind it. */
  lemma TrailingHyphenIsIgnored(core: string)
    requires '-' !in core && '+' !in core
    ensures Parse(core + "-") == Parse(core)
  {
    hide WithPre, Find;
    SplitOnceAt(core, '-', "");
    assert core + "-" == core + ['-'] + "";
  }

  /** ... and than section 10: build metadata that is empty or no identifier. */
  lemma AcceptedBeyondTheGrammar()
    ensures Parse("1.0.0-") == Some(SemVer(1, 0, 0, []))
    ensures Parse("1.0.0+") == Some(SemVer(1, 0, 0, [])) && Parse("1.0.0+!! a") == Some(SemVer(1, 0, 0, []))
  {
    hide Parse;
    FirstReleaseParses();
    assert "1.0.0" + "-" == "1.0.0-" && "1.0.0" + "+" + "" == "1.0.0+" && "1.0.0" + "+" + "!! a" == "1.0.0+!! a";
    TrailingHyphenIsIgnored("1.0.0");
    BuildMetadataIsIgnored("1.0.0", "");
    BuildMetadataIsIgnored("1.0.0", "!! a");
  }
}
