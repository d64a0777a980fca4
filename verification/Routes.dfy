/**
 The remote registry's routes (`registry.rs`): percent encoding of path segments
 and the reader of the generated endpoints. The bytes of a text are written as the
 characters with their values, so that an ASCII text is its own bytes.
 */
module Routes {
  import opened Wrappers
  import opened Text
  import opened Names
  import Sha256Standard
  import Utf8

  // ---------- percent encoding ----------

  type Bytes = s: string | forall c :: c in s ==> (c as int) < 256

  /** `ALPHA / DIGIT / "-" / "." / "_" / "~"`, section 2.3 of RFC 3986. */
  predicate IsUnreserved(c: char) { IsAlphanumeric(c) || c in "-_.~" }

  function HexDigit(n: nat): (c: char)
    requires n < 16
    ensures IsDigit(c) || 'A' <= c <= 'F'
  {
    "0123456789ABCDEF"[n]
  }

  function HexValue(c: char): (n: Option<nat>)
    ensures n.Some? ==> n.value < 16
  {
    if '0' <= c <= '9' then Some(c as int - '0' as int)
    else if 'a' <= c <= 'f' then Some(c as int - 'a' as int + 10)
    else if 'A' <= c <= 'F' then Some(c as int - 'A' as int + 10)
    else None
  }

  function EncodeByte(c: char): string
    requires (c as int) < 256
  {
    if IsUnreserved(c) then [c] else ['%', HexDigit(c as int / 16), HexDigit(c as int % 16)]
  }

  function Encoded(value: Bytes): string {
    if value == "" then "" else EncodeByte(value[0]) + Encoded(value[1..])
  }

  function Prefixed(bytes: string, rest: Option<string>): Option<string> {
    if rest.None? then None else Some(bytes + rest.value)
  }

  /** What the text stands for, byte by byte; nothing if a `%` lacks its two digits. */
  function Decoded(text: string): Option<string> {
    if text == "" then Some("")
    else if text[0] != '%' then Prefixed([text[0]], Decoded(text[1..]))
    else if |text| < 3 || HexValue(text[1]).None? || HexValue(text[2]).None? then None
    else Prefixed([PairValue(text[1], text[2])], Decoded(text[3..]))
  }

  function PairValue(high: char, low: char): char
    requires HexValue(high).Some? && HexValue(low).Some?
  {
    (16 * HexValue(high).value + HexValue(low).value) as char
  }

  // ---------- texts and their bytes ----------

  /** `bytes()`: the UTF-8 form of a text. */
  function Raw(text: string): Bytes {
    var bytes := Utf8.Encode(text);
    seq(|bytes|, i requires 0 <= i < |bytes| => bytes[i] as char)
  }

  /** `String::from_utf8`. */
  function FromRaw(raw: string): Option<string> {
    if forall c :: c in raw ==> (c as int) < 256 then Utf8.Decode(BytesOf(raw)) else None
  }

  function BytesOf(raw: Bytes): seq<Sha256Standard.Byte> {
    seq(|raw|, i requires 0 <= i < |raw| => assert raw[i] in raw; raw[i] as Sha256Standard.Byte)
  }

  /** Bytes are read as a text exactly if they are its bytes. */
  lemma RawIsInverse(raw: string, text: string)
    ensures FromRaw(raw) == Some(text) <==> Raw(text) == raw
  {
    hide Utf8.Encode, Utf8.Decode;
    if forall c :: c in raw ==> (c as int) < 256 {
      Utf8.DecodeIsInverse(BytesOf(raw), text);
      assert BytesOf(raw) == Utf8.Encode(text) <==> raw == Raw(text) by {
        if raw == Raw(text) { assert BytesOf(Raw(text)) == Utf8.Encode(text); }
      }
    }
  }

  lemma RawEmptiness(text: string)
    ensures Raw(text) == "" <==> text == ""
  {
  }

  lemma {:induction false} RawOfAscii(text: string)
    requires forall c :: c in text ==> (c as int) < 128
    ensures Raw(text) == text
  {
    if text != "" {
      assert text[0] in text && forall c :: c in text[1..] ==> c in text;
      RawOfAscii(text[1..]);
      assert text == [text[0]] + text[1..];
      assert Raw(text) == [text[0]] + Raw(text[1..]);
    }
  }

  /** `percent_encode_path_segment`. */
  method PercentEncode(value: string) returns (out: string)
    ensures out == EncodedText(value)
  {
    hide EncodeByte, Raw;
    out := "";
    var bytes := Raw(value);
    for i := 0 to |bytes|
      invariant Encoded(bytes) == out + Encoded(bytes[i..])
    {
      assert bytes[i..][1..] == bytes[i + 1..];
      out := out + EncodeByte(bytes[i]);
    }
  }

  function EncodedText(value: string): string { Encoded(Raw(value)) }

  lemma PrefixedTwice(bytes: string, c: char, rest: Option<string>)
    ensures Prefixed(bytes, Prefixed([c], rest)) == Prefixed(bytes + [c], rest)
  {
    if rest.Some? {
      assert bytes + ([c] + rest.value) == bytes + [c] + rest.value;
    }
  }

  lemma PrefixedByNothing(rest: Option<string>)
    ensures Prefixed("", rest) == rest
  {
    if rest.Some? {
      assert "" + rest.value == rest.value;
    }
  }

  /** `percent_decode_path_segment`. */
  method PercentDecode(value: string) returns (r: Option<string>)
    ensures r == DecodeSegment(value)
  {
    hide Prefixed, PairValue, HexValue, Raw, FromRaw;
    var text := Raw(value);
    var bytes := "";
    var i := 0;
    PrefixedByNothing(Decoded(text));
    assert text[0..] == text;
    while i < |text|
      invariant 0 <= i <= |text|
      invariant Decoded(text) == Prefixed(bytes, Decoded(text[i..]))
    {
      var byte := text[i];
      var rest := text[i..];
      i := i + 1;
      if byte != '%' {
        assert rest[1..] == text[i..];
        PrefixedTwice(bytes, byte, Decoded(text[i..]));
        bytes := bytes + [byte];
        continue;
      }
      if i + 1 >= |text| || HexValue(text[i]).None? || HexValue(text[i + 1]).None? {
        NothingPrefixed(bytes);
        return None;
      }
      assert rest[3..] == text[i + 2..];
      PrefixedTwice(bytes, PairValue(text[i], text[i + 1]), Decoded(text[i + 2..]));
      bytes := bytes + [PairValue(text[i], text[i + 1])];
      i := i + 2;
    }
    assert text[i..] == "";
    assert Prefixed(bytes, Some("")) == Some(bytes) by { PrefixNothing(bytes); }
    return FromRaw(bytes);
  }

  lemma NothingPrefixed(bytes: string)
    ensures Prefixed(bytes, None) == None
  {}

  lemma PrefixNothing(bytes: string)
    ensures Prefixed(bytes, Some("")) == Some(bytes)
  {
    assert bytes + "" == bytes;
  }

  /** What a segment stands for; nothing if its bytes are no text. */
  function DecodeSegment(text: string): Option<string> {
    match Decoded(Raw(text))
    case None => None
    case Some(bytes) => FromRaw(bytes)
  }

  /** The normal form: unreserved characters as they are, every other byte as `%` and
      two upper-case digits, sections 2.1 and 6.2.2.2 of RFC 3986. */
  predicate IsNormal(text: string) {
    if text == "" then true
    else if text[0] != '%' then IsUnreserved(text[0]) && IsNormal(text[1..])
    else
      && |text| >= 3 && IsUpperHex(text[1]) && IsUpperHex(text[2])
      && !IsUnreserved(PairValue(text[1], text[2]))
      && IsNormal(text[3..])
  }

  predicate IsUpperHex(c: char) { IsDigit(c) || 'A' <= c <= 'F' }

  lemma HexRoundTrip(n: nat)
    requires n < 16
    ensures HexValue(HexDigit(n)) == Some(n) && IsUpperHex(HexDigit(n))
  {}

  lemma HexDigitOfValue(c: char)
    requires IsUpperHex(c)
    ensures HexValue(c).Some? && HexDigit(HexValue(c).value) == c
  {}

  /** The two shapes of an encoded byte. */
  lemma EncodedByte(c: char)
    requires (c as int) < 256
    ensures IsUnreserved(c) ==> EncodeByte(c) == [c] && c != '%'
    ensures var high, low := HexDigit(c as int / 16), HexDigit(c as int % 16);
            && (!IsUnreserved(c) ==> EncodeByte(c) == ['%', high, low])
            && IsUpperHex(high) && IsUpperHex(low) && HexValue(high).Some? && HexValue(low).Some?
            && PairValue(high, low) == c
  {
    HexRoundTrip(c as int / 16);
    HexRoundTrip(c as int % 16);
    assert 16 * (c as int / 16) + c as int % 16 == c as int;
  }

  lemma DecodeEncodedByte(c: char, rest: string)
    requires (c as int) < 256
    ensures Decoded(EncodeByte(c) + rest) == Prefixed([c], Decoded(rest))
    ensures IsNormal(rest) ==> IsNormal(EncodeByte(c) + rest)
  {
    hide EncodeByte, PairValue, HexValue, HexDigit, IsUnreserved, IsUpperHex, Prefixed;
    EncodedByte(c);
    var text := EncodeByte(c) + rest;
    if IsUnreserved(c) {
      assert text[1..] == rest;
    } else {
      assert text[3..] == rest;
    }
  }

  /** Decoding the encoding of any byte string returns it, and the encoding is normal. */
  lemma {:induction false} EncodingRoundTrip(value: Bytes)
    ensures IsNormal(Encoded(value)) && Decoded(Encoded(value)) == Some(value)
  {
    hide EncodeByte, Decoded, IsNormal;
    if value == "" {
      DecodeNothing();
    } else {
      EncodingRoundTrip(value[1..]);
      DecodeEncodedByte(value[0], Encoded(value[1..]));
      assert value == [value[0]] + value[1..];
    }
  }

  lemma DecodeNothing()
    ensures IsNormal("") && Decoded("") == Some("")
  {}

  lemma NormalPair(high: char, low: char)
    requires IsUpperHex(high) && IsUpperHex(low) && !IsUnreserved(PairValue(high, low))
    ensures (PairValue(high, low) as int) < 256 && EncodeByte(PairValue(high, low)) == ['%', high, low]
  {
    hide HexValue, HexDigit, IsUnreserved, IsUpperHex;
    HexDigitOfValue(high);
    HexDigitOfValue(low);
    var h, l := HexValue(high).value, HexValue(low).value;
    assert (16 * h + l) / 16 == h && (16 * h + l) % 16 == l;
  }

  ghost predicate IsBytes(s: string) { forall c :: c in s ==> (c as int) < 256 }

  /** Normal text is the encoding of what it decodes to: byte strings and normal texts
      correspond one to one. */
  lemma {:induction false} NormalIsEncoded(text: string)
    requires IsNormal(text)
    ensures Decoded(text).Some? && IsBytes(Decoded(text).value) && Encoded(Decoded(text).value) == text
  {
    hide HexValue, EncodeByte, IsUnreserved, PairValue;
    if text != "" {
      var k := if text[0] != '%' then 1 else 3;
      NormalIsEncoded(text[k..]);
      if k == 3 {
        HexDigitOfValue(text[1]);
        HexDigitOfValue(text[2]);
        NormalPair(text[1], text[2]);
      } else {
        UnreservedIsPlain(text[0]);
      }
      assert text == text[..k] + text[k..];
      assert text[..k] == if k == 1 then [text[0]] else ['%', text[1], text[2]];
      var value := Decoded(text).value;
      assert value[1..] == Decoded(text[k..]).value;
    }
  }

  lemma UnreservedIsPlain(c: char)
    requires IsUnreserved(c)
    ensures (c as int) < 256 && EncodeByte(c) == [c]
  {}

  lemma {:induction false} NormalHasNoSlash(text: string)
    requires IsNormal(text)
    ensures '/' !in text
  {
    if text != "" {
      NormalHasNoSlash(text[if text[0] != '%' then 1 else 3..]);
    }
  }

  lemma {:induction false} NormalIsAscii(text: string)
    requires IsNormal(text)
    ensures forall c :: c in text ==> (c as int) < 128
  {
    hide PairValue;
    if text != "" {
      var k := if text[0] != '%' then 1 else 3;
      NormalIsAscii(text[k..]);
      assert text == text[..k] + text[k..];
      assert text[..k] == if k == 1 then [text[0]] else ['%', text[1], text[2]];
    }
  }

  // ---------- the endpoints ----------

  datatype Route =
    | PackageMetadata(name: string)
    | VersionListing(name: string)
    | VersionMetadata(name: string, version: string)
    | DownloadByVersion(name: string, version: string)
    | DownloadByHash(name: string, sha256: string)

  const API_PREFIX := "/v1"

  function PackageEndpoint(name: string): string { API_PREFIX + "/packages/" + EncodedText(name) }

  function VersionsEndpoint(name: string): string { PackageEndpoint(name) + "/versions" }

  function VersionEndpoint(name: string, version: string): string {
    PackageEndpoint(name) + "/versions/" + EncodedText(version)
  }

  function DownloadEndpoint(name: string, version: string): string { VersionEndpoint(name, version) + "/download" }

  /** `split_content_hash`: the part after the first colon, or everything. */
  function HashValue(contentHash: string): string {
    match SplitOnce(contentHash, ':')
    case None => contentHash
    case Some(parts) => parts.1
  }

  function BlobEndpoint(name: string, contentHash: string): string {
    PackageEndpoint(name) + "/blobs/" + EncodedText(HashValue(contentHash))
  }

  // ---------- the reader ----------

  function Split(s: string, c: char): (parts: seq<string>)
    decreases |s|
  {
    var i := Find(s, c);
    if i == |s| then [s] else [s[..i]] + Split(s[i + 1..], c)
  }

  function NonEmpty(parts: seq<string>): seq<string> {
    if parts == [] then [] else (if parts[0] == "" then [] else [parts[0]]) + NonEmpty(parts[1..])
  }

  /** `parse_remote_registry_get`. */
  function ParseGet(path: string): Option<Route> {
    if !(API_PREFIX <= path) then None
    else Matched(NonEmpty(Split(TrimStartMatches(path[|API_PREFIX|..], '/'), '/')))
  }

  function Matched(parts: seq<string>): Option<Route> {
    if |parts| < 2 || parts[0] != "packages" then None
    else
      var name := DecodeSegment(parts[1]);
      if name.None? then None
      else if |parts| == 2 then Some(PackageMetadata(name.value))
      else if |parts| == 3 && parts[2] == "versions" then Some(VersionListing(name.value))
      else if |parts| < 4 then None
      else
        var last := DecodeSegment(parts[3]);
        if last.None? then None
        else if |parts| == 4 && parts[2] == "versions" then Some(VersionMetadata(name.value, last.value))
        else if |parts| == 5 && parts[2] == "versions" && parts[4] == "download" then
          Some(DownloadByVersion(name.value, last.value))
        else if |parts| == 4 && parts[2] == "blobs" then Some(DownloadByHash(name.value, last.value))
        else None
  }

  // ---------- reading a generated endpoint ----------

  /** Splitting at a separator and keeping the non-empty parts gives the words between
      separators. */
  lemma {:induction false} PartsAreWords(s: string, c: char)
    ensures NonEmpty(Split(s, c)) == Words(s, c)
    decreases |s|
  {
    var i := Find(s, c);
    if i < |s| {
      PartsAreWords(s[i + 1..], c);
      assert s == s[..i] + s[i..];
      if i == 0 {
        assert s[..i] == "" && s[i..] == s;
      } else {
        WordThenRest(s[..i], s[i..], c);
        assert s[i..][1..] == s[i + 1..];
      }
    } else if s != "" {
      assert s[..i] == s && s + "" == s;
      WordThenRest(s, "", c);
    }
  }

  lemma {:induction false} TrimmedWords(s: string, c: char)
    ensures Words(TrimStartMatches(s, c), c) == Words(s, c)
  {
    if StartsWith(s, c) {
      TrimmedWords(s[1..], c);
    }
  }

  lemma ReadsParts(tail: string)
    ensures ParseGet(API_PREFIX + tail) == Matched(Words(tail, '/'))
  {
    hide Words, Matched, Split;
    assert (API_PREFIX + tail)[|API_PREFIX|..] == tail;
    PartsAreWords(TrimStartMatches(tail, '/'), '/');
    TrimmedWords(tail, '/');
  }

  /** The words of a path: its non-empty segments. */
  lemma {:induction false} WordsOfSegments(segments: seq<string>)
    requires forall s :: s in segments ==> '/' !in s
    ensures Words(Path(segments), '/') == NonEmpty(segments)
  {
    hide Words;
    if segments == [] {
      assert Words("", '/') == [] by { NoWords('/'); }
    } else {
      WordsOfSegments(segments[1..]);
      SeparatorThenWords(segments[0] + Path(segments[1..]), '/');
      if segments[0] == "" {
        assert "" + Path(segments[1..]) == Path(segments[1..]);
      } else {
        WordThenRest(segments[0], Path(segments[1..]), '/');
      }
    }
  }

  /** Each segment after a slash. */
  function Path(segments: seq<string>): (path: string)
    ensures segments != [] ==> path != "" && path[0] == '/'
  {
    if segments == [] then "" else "/" + (segments[0] + Path(segments[1..]))
  }

  /** The segments of the endpoint of a route. */
  function Segments(route: Route): seq<string> {
    match route
    case PackageMetadata(name) => ["packages", EncodedText(name)]
    case VersionListing(name) => ["packages", EncodedText(name), "versions"]
    case VersionMetadata(name, version) => ["packages", EncodedText(name), "versions", EncodedText(version)]
    case DownloadByVersion(name, version) =>
      ["packages", EncodedText(name), "versions", EncodedText(version), "download"]
    case DownloadByHash(name, sha256) => ["packages", EncodedText(name), "blobs", EncodedText(sha256)]
  }

  predicate HasNoEmptySegment(route: Route) {
    && route.name != ""
    && (route.VersionMetadata? || route.DownloadByVersion? ==> route.version != "")
    && (route.DownloadByHash? ==> route.sha256 != "")
  }

  /** The endpoint the registry prints for a route; a blob is named by a full content hash. */
  ghost predicate IsEndpoint(path: string, route: Route) {
    match route
    case PackageMetadata(name) => path == PackageEndpoint(name)
    case VersionListing(name) => path == VersionsEndpoint(name)
    case VersionMetadata(name, version) => path == VersionEndpoint(name, version)
    case DownloadByVersion(name, version) => path == DownloadEndpoint(name, version)
    case DownloadByHash(name, sha256) =>
      exists contentHash: string :: HashValue(contentHash) == sha256 && path == BlobEndpoint(name, contentHash)
  }

  lemma PathOfTwo(a: string, b: string)
    ensures Path([a, b]) == "/" + a + "/" + b
  {
    assert [a, b][1..] == [b] && [b][1..] == [];
    assert Path([b]) == "/" + b;
  }

  lemma PathAppend(segments: seq<string>, last: string)
    ensures Path(segments + [last]) == Path(segments) + "/" + last
  {
    if segments == [] {
      assert [] + [last] == [last] && [last][1..] == [];
    } else {
      PathAppend(segments[1..], last);
      assert (segments + [last])[1..] == segments[1..] + [last];
    }
  }

  lemma PackagePath(name: string)
    ensures PackageEndpoint(name) == API_PREFIX + Path(["packages", EncodedText(name)])
  {
    hide Path, EncodedText;
    PathOfTwo("packages", EncodedText(name));
  }

  lemma LongerPath(base: string, segments: seq<string>, last: string)
    requires base == API_PREFIX + Path(segments)
    ensures base + "/" + last == API_PREFIX + Path(segments + [last])
  {
    hide Path;
    PathAppend(segments, last);
  }

  /** One more literal segment and one more encoded one. */
  lemma PathWithPair(base: string, segments: seq<string>, literal: string, last: string)
    requires base == API_PREFIX + Path(segments)
    ensures base + ("/" + literal + "/") + last == API_PREFIX + Path(segments + [literal, last])
  {
    hide Path;
    LongerPath(base, segments, literal);
    LongerPath(base + "/" + literal, segments + [literal], last);
    assert segments + [literal] + [last] == segments + [literal, last];
    assert base + ("/" + literal + "/") + last == base + "/" + literal + "/" + last;
  }

  lemma VersionPath(name: string, version: string)
    ensures VersionEndpoint(name, version) ==
            API_PREFIX + Path(["packages", EncodedText(name), "versions", EncodedText(version)])
  {
    hide Path, EncodedText, PackageEndpoint;
    PackagePath(name);
    PathWithPair(PackageEndpoint(name), ["packages", EncodedText(name)], "versions", EncodedText(version));
    assert "/" + "versions" + "/" == "/versions/";
    assert ["packages", EncodedText(name)] + ["versions", EncodedText(version)] ==
           ["packages", EncodedText(name), "versions", EncodedText(version)];
  }

  lemma BlobPath(name: string, contentHash: string)
    ensures BlobEndpoint(name, contentHash) ==
            API_PREFIX + Path(["packages", EncodedText(name), "blobs", EncodedText(HashValue(contentHash))])
  {
    hide Path, EncodedText, PackageEndpoint, HashValue;
    var last := EncodedText(HashValue(contentHash));
    PackagePath(name);
    PathWithPair(PackageEndpoint(name), ["packages", EncodedText(name)], "blobs", last);
    assert "/" + "blobs" + "/" == "/blobs/";
    assert ["packages", EncodedText(name)] + ["blobs", last] == ["packages", EncodedText(name), "blobs", last];
  }

  lemma EndpointIsPath(path: string, route: Route)
    requires IsEndpoint(path, route)
    ensures path == API_PREFIX + Path(Segments(route))
  {
    hide Path, EncodedText, HashValue, PackageEndpoint, VersionEndpoint, BlobEndpoint;
    match route
    case PackageMetadata(name) => PackagePath(name);
    case VersionListing(name) =>
      PackagePath(name);
      LongerPath(PackageEndpoint(name), ["packages", EncodedText(name)], "versions");
      assert ["packages", EncodedText(name)] + ["versions"] == Segments(route);
      assert "/" + "versions" == "/versions";
    case VersionMetadata(name, version) => VersionPath(name, version);
    case DownloadByVersion(name, version) =>
      VersionPath(name, version);
      LongerPath(VersionEndpoint(name, version), ["packages", EncodedText(name), "versions", EncodedText(version)],
                 "download");
      assert ["packages", EncodedText(name), "versions", EncodedText(version)] + ["download"] == Segments(route);
      assert "/" + "download" == "/download";
    case DownloadByHash(name, sha256) =>
      var contentHash: string :| HashValue(contentHash) == sha256 && path == BlobEndpoint(name, contentHash);
      BlobPath(name, contentHash);
  }

  lemma EncodedEmptiness(value: string)
    ensures EncodedText(value) == "" <==> value == ""
    ensures '/' !in EncodedText(value)
  {
    hide Raw, Decoded;
    RawEmptiness(value);
    EncodingRoundTrip(Raw(value));
    NormalHasNoSlash(EncodedText(value));
    DecodeNothing();
  }

  lemma SegmentsHaveNoSlash(route: Route)
    ensures forall s :: s in Segments(route) ==> '/' !in s
    ensures "" in Segments(route) <==> !HasNoEmptySegment(route)
  {
    hide EncodedText;
    EncodedEmptiness(route.name);
    match route
    case PackageMetadata(_) =>
    case VersionListing(_) =>
    case VersionMetadata(_, version) => EncodedEmptiness(version);
    case DownloadByVersion(_, version) => EncodedEmptiness(version);
    case DownloadByHash(_, sha256) => EncodedEmptiness(sha256);
  }

  lemma {:induction false} NonEmptyParts(parts: seq<string>)
    ensures |NonEmpty(parts)| <= |parts|
    ensures "" in parts ==> |NonEmpty(parts)| < |parts|
    ensures "" !in parts ==> NonEmpty(parts) == parts
  {
    if parts != [] {
      NonEmptyParts(parts[1..]);
      assert parts == [parts[0]] + parts[1..];
    }
  }

  lemma MatchedLength(parts: seq<string>, route: Route)
    requires Matched(parts) == Some(route)
    ensures |parts| == |Segments(route)|
  {}

  /** Decoding the encoding of any text returns it. */
  lemma DecodesSegment(value: string)
    ensures DecodeSegment(EncodedText(value)) == Some(value)
  {
    hide Raw, FromRaw, Encoded, Decoded;
    EncodingRoundTrip(Raw(value));
    NormalIsAscii(EncodedText(value));
    RawOfAscii(EncodedText(value));
    RawIsInverse(Raw(value), value);
  }

  /** A segment in normal form that decodes is the encoding of what it decodes to. */
  lemma NormalSegmentIsEncoded(segment: string)
    requires IsNormal(segment) && DecodeSegment(segment).Some?
    ensures EncodedText(DecodeSegment(segment).value) == segment
  {
    hide Raw, FromRaw, Encoded, Decoded;
    NormalIsAscii(segment);
    RawOfAscii(segment);
    NormalIsEncoded(segment);
    RawIsInverse(Decoded(segment).value, DecodeSegment(segment).value);
  }

  lemma MatchesSegments(route: Route)
    ensures Matched(Segments(route)) == Some(route)
  {
    hide DecodeSegment, EncodedText;
    DecodesSegment(route.name);
    match route
    case PackageMetadata(_) =>
    case VersionListing(_) =>
    case VersionMetadata(_, version) => DecodesSegment(version);
    case DownloadByVersion(_, version) => DecodesSegment(version);
    case DownloadByHash(_, sha256) => DecodesSegment(sha256);
  }

  /** A generated endpoint reads back as its route exactly when no name, version or hash
      in it is empty. */
  lemma EndpointRoundTrip(path: string, route: Route)
    requires IsEndpoint(path, route)
    ensures ParseGet(path) == Some(route) <==> HasNoEmptySegment(route)
  {
    hide Segments, Matched, ParseGet, NonEmpty, Words;
    var segments := Segments(route);
    EndpointIsPath(path, route);
    SegmentsHaveNoSlash(route);
    ReadsSegments(segments);
    NonEmptyParts(segments);
    if "" in segments {
      if Matched(NonEmpty(segments)) == Some(route) {
        MatchedLength(NonEmpty(segments), route);
      }
    } else {
      MatchesSegments(route);
    }
  }

  lemma ReadsSegments(segments: seq<string>)
    requires forall s :: s in segments ==> '/' !in s
    ensures ParseGet(API_PREFIX + Path(segments)) == Matched(NonEmpty(segments))
  {
    hide Words, ParseGet, Matched, NonEmpty;
    ReadsParts(Path(segments));
    WordsOfSegments(segments);
  }

  /** An empty version turns a version's metadata into the listing of all versions. */
  lemma EmptyVersionListsAll(name: string)
    requires name != ""
    ensures ParseGet(VersionEndpoint(name, "")) == Some(VersionListing(name))
  {
    hide Words, ParseGet, EncodedText, DecodeSegment, Path, NonEmpty, VersionEndpoint;
    EncodedEmptiness(name);
    EncodedEmptiness("");
    DecodesSegment(name);
    var listing := ["packages", EncodedText(name), "versions"];
    VersionPath(name, "");
    ReadsSegments(listing + [""]);
    assert listing + [""] == ["packages", EncodedText(name), "versions", ""];
    NonEmptyParts(listing);
    NonEmptyAppend(listing, "");
  }

  /** A package without a name is not found. */
  lemma EmptyNameIsNotFound(isUtf8: string -> bool)
    ensures ParseGet(PackageEndpoint("")) == None
  {
    hide Words, ParseGet, EncodedText, DecodeSegment, Path, NonEmpty, PackageEndpoint;
    EncodedEmptiness("");
    PackagePath("");
    ReadsSegments(["packages", ""]);
    NonEmptyParts(["packages", ""]);
  }

  lemma {:induction false} NonEmptyAppend(parts: seq<string>, last: string)
    ensures NonEmpty(parts + [last]) == NonEmpty(parts) + if last == "" then [] else [last]
  {
    if parts == [] {
      assert [] + [last] == [last];
    } else {
      assert (parts + [last])[1..] == parts[1..] + [last];
      NonEmptyAppend(parts[1..], last);
    }
  }
}
