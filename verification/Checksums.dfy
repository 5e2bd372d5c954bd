/** Checksum asset lookup, manifest parsing, chunked hashing and hex comparison of self_update.rs. */
module Checksums {
  import opened Prelude
  import opened Text
  import opened Assets

  // ----- Which asset holds the checksum -----

  predicate EqualIgnoringCase(a: string, b: string) {
    ToAsciiLower(a) == ToAsciiLower(b)
  }

  predicate IsDirectChecksum(name: string, selected: string) {
    || EqualIgnoringCase(name, selected + ".sha256")
    || EqualIgnoringCase(name, selected + ".sha256sum")
    || EqualIgnoringCase(name, selected + ".sha256.txt")
  }

  predicate IsManifest(name: string) {
    var lower := ToAsciiLower(name);
    lower == "sha256sums" || lower == "sha256sums.txt" || lower == "checksums.txt" || lower == "checksums.sha256"
  }

  predicate IsFirst(assets: seq<ReleaseAsset>, wanted: string -> bool, i: nat) {
    i < |assets| && wanted(assets[i].name) && forall j :: 0 <= j < i ==> !wanted(assets[j].name)
  }

  /** The first asset whose name satisfies `wanted`. */
  function FindFirst(assets: seq<ReleaseAsset>, wanted: string -> bool): (r: Option<ReleaseAsset>)
    ensures r.Some? ==> r.value in assets && wanted(r.value.name)
    ensures r.Some? ==> exists i :: 0 <= i < |assets| && IsFirst(assets, wanted, i) && assets[i] == r.value
    ensures r.None? ==> forall a :: a in assets ==> !wanted(a.name)
  {
    if assets == [] then None
    else if wanted(assets[0].name) then assert IsFirst(assets, wanted, 0); Some(assets[0])
    else
      var rest := FindFirst(assets[1..], wanted);
      assert rest.Some? ==> forall i :: 0 <= i < |assets| - 1 && IsFirst(assets[1..], wanted, i) ==> IsFirst(assets, wanted, i + 1);
      rest
  }

  /** A direct sidecar wins over a manifest. */
  function FindChecksumAsset(release: Release, selected: ReleaseAsset): Option<ReleaseAsset> {
    match FindFirst(release.assets, name => IsDirectChecksum(name, selected.name))
    case Some(asset) => Some(asset)
    case None => FindFirst(release.assets, name => IsManifest(name))
  }

  predicate AnyNamed(assets: seq<ReleaseAsset>, wanted: string -> bool) {
    exists a :: a in assets && wanted(a.name)
  }

  /** A sidecar of the selected asset is preferred to any manifest, and one is found whenever there is either. */
  lemma SidecarBeatsManifest(release: Release, selected: ReleaseAsset)
    ensures var direct, manifest := (name: string) => IsDirectChecksum(name, selected.name), (name: string) => IsManifest(name);
            var r := FindChecksumAsset(release, selected);
            && (AnyNamed(release.assets, direct) ==> r.Some? && direct(r.value.name))
            && (r.Some? && !direct(r.value.name) ==> manifest(r.value.name))
            && (r.None? <==> !AnyNamed(release.assets, direct) && !AnyNamed(release.assets, manifest))
  {
    var direct, manifest := (name: string) => IsDirectChecksum(name, selected.name), (name: string) => IsManifest(name);
    assert FindChecksumAsset(release, selected)
           == (if FindFirst(release.assets, direct).Some? then FindFirst(release.assets, direct) else FindFirst(release.assets, manifest));
  }

  lemma LowerConcat(a: string, b: string)
    ensures ToAsciiLower(a + b) == ToAsciiLower(a) + ToAsciiLower(b)
  {
  }

  lemma DirectEndsWith(name: string, selected: string, suffix: string)
    requires EqualIgnoringCase(name, selected + suffix)
    requires forall i :: 0 <= i < |suffix| ==> AsciiLower(suffix[i]) == suffix[i]
    ensures EndsWith(ToAsciiLower(name), suffix)
  {
    LowerConcat(selected, suffix);
    assert ToAsciiLower(suffix) == suffix;
    assert ToAsciiLower(name)[|selected|..] == suffix;
  }

  lemma DirectIsChecksum(name: string, selected: string)
    requires IsDirectChecksum(name, selected)
    ensures IsChecksumAsset(ToAsciiLower(name))
  {
    if EqualIgnoringCase(name, selected + ".sha256") {
      DirectEndsWith(name, selected, ".sha256");
    } else if EqualIgnoringCase(name, selected + ".sha256sum") {
      DirectEndsWith(name, selected, ".sha256sum");
    } else {
      DirectEndsWith(name, selected, ".sha256.txt");
    }
  }

  lemma ContainsAt(s: string, part: string, i: nat)
    requires i + |part| <= |s| && s[i..i + |part|] == part
    ensures Contains(s, part)
  {
    assert OccursAt(s, part, i);
  }

  lemma ManifestIsChecksum(name: string)
    requires IsManifest(name)
    ensures IsChecksumAsset(ToAsciiLower(name))
  {
    var lower := ToAsciiLower(name);
    if lower == "sha256sums" || lower == "sha256sums.txt" {
      assert lower[0..9] == "sha256sum";
      ContainsAt(lower, "sha256sum", 0);
    } else {
      assert lower[0..8] == "checksum";
      ContainsAt(lower, "checksum", 0);
    }
  }

  lemma FoundIsChecksum(release: Release, selected: ReleaseAsset)
    requires FindChecksumAsset(release, selected).Some?
    ensures FindChecksumAsset(release, selected).value in release.assets
    ensures IsChecksumAsset(ToAsciiLower(FindChecksumAsset(release, selected).value.name))
  {
    match FindFirst(release.assets, name => IsDirectChecksum(name, selected.name)) {
      case Some(asset) => DirectIsChecksum(asset.name, selected.name);
      case None => ManifestIsChecksum(FindChecksumAsset(release, selected).value.name);
    }
  }

  /** Whatever is found is a checksum file by the scorer's own test, so never the selected asset. */
  lemma ChecksumAssetIsNeverSelected(release: Release, score: Scoring, selected: ReleaseAsset)
    requires forall a :: score(a).Some? ==> !IsChecksumAsset(ToAsciiLower(a.name))
    requires Select(score, release.assets) == Ok(selected)
    ensures !IsChecksumAsset(ToAsciiLower(selected.name))
    ensures FindChecksumAsset(release, selected).Some? ==>
              && FindChecksumAsset(release, selected).value in release.assets
              && IsChecksumAsset(ToAsciiLower(FindChecksumAsset(release, selected).value.name))
              && FindChecksumAsset(release, selected).value.name != selected.name
  {
    WinnerIsStrictBest(score, release.assets);
    if FindChecksumAsset(release, selected).Some? {
      FoundIsChecksum(release, selected);
    }
  }

  // ----- Lines and tokens -----

  /** `str::lines`: pieces ended by LF or CR LF; a last piece that no LF ends is kept as it is, if not empty. */
  function Lines(text: string): seq<string> {
    if text == [] then []
    else
      var n := LineLength(text);
      if n == |text| then [text] else [DropCr(text[..n])] + Lines(text[n + 1..])
  }

  function LineLength(text: string): (n: nat)
    ensures n <= |text|
    ensures n < |text| ==> text[n] == '\n'
    ensures forall i :: 0 <= i < n ==> text[i] != '\n'
  {
    if text == [] || text[0] == '\n' then 0 else 1 + LineLength(text[1..])
  }

  function DropCr(line: string): string {
    if line != [] && line[|line| - 1] == '\r' then line[..|line| - 1] else line
  }

  function WordLength(s: string): (n: nat)
    ensures n <= |s|
    ensures forall i :: 0 <= i < n ==> !IsWhitespace(s[i])
    ensures n < |s| ==> IsWhitespace(s[n])
  {
    if s == [] || IsWhitespace(s[0]) then 0 else 1 + WordLength(s[1..])
  }

  /** `split_whitespace`: maximal runs of non-whitespace. */
  function Words(s: string): seq<string>
    decreases |s|
  {
    if s == [] then []
    else if IsWhitespace(s[0]) then Words(s[1..])
    else [s[..WordLength(s)]] + Words(s[WordLength(s)..])
  }

  const ALGORITHM: string := "SHA256:"

  function StripAlgorithm(s: string): string
    decreases |s|
  {
    if ALGORITHM <= s then StripAlgorithm(s[|ALGORITHM|..]) else s
  }

  predicate IsHexDigit(c: char) {
    '0' <= c <= '9' || 'a' <= c <= 'f' || 'A' <= c <= 'F'
  }

  predicate IsSha256Hex(s: string) {
    |s| == 64 && forall i :: 0 <= i < |s| ==> IsHexDigit(s[i])
  }

  predicate IsLowerSha256(s: string) {
    IsSha256Hex(s) && forall i :: 0 <= i < |s| ==> AsciiLower(s[i]) == s[i]
  }

  lemma LowerHex(s: string)
    requires IsSha256Hex(s)
    ensures IsLowerSha256(ToAsciiLower(s))
  {
    var lower := ToAsciiLower(s);
    forall i | 0 <= i < |lower| ensures IsHexDigit(lower[i]) && AsciiLower(lower[i]) == lower[i] {
      assert IsHexDigit(s[i]);
    }
  }

  /** The checksum one manifest line offers for `selected`. */
  function LineChecksum(line: string, selected: string): (r: Option<string>)
    ensures r.Some? ==> IsLowerSha256(r.value)
  {
    var trimmed := Trim(line);
    if trimmed == [] || trimmed[0] == '#' then None
    else
      var words := Words(trimmed);
      if words == [] then None
      else
        var first := StripAlgorithm(words[0]);
        if IsSha256Hex(first) && (|words| == 1 || Contains(trimmed, selected)) then
        LowerHex(first);
        Some(ToAsciiLower(first))
      else None
  }

  function FirstChecksum(lines: seq<string>, selected: string): (r: Option<string>)
    ensures r.Some? ==> IsLowerSha256(r.value)
  {
    if lines == [] then None
    else match LineChecksum(lines[0], selected)
      case Some(hash) => Some(hash)
      case None => FirstChecksum(lines[1..], selected)
  }

  method ParseExpectedChecksum(text: string, selected: string) returns (r: Option<string>)
    ensures r == FirstChecksum(Lines(text), selected)
  {
    var lines := Lines(text);
    for i := 0 to |lines|
      invariant FirstChecksum(lines, selected) == FirstChecksum(lines[i..], selected)
    {
      r := LineChecksum(lines[i], selected);
      if r.Some? {
        return;
      }
    }
    r := None;
  }

  // ----- Rendered manifests -----

  datatype Entry = Entry(hash: string, name: string)

  function EntryLine(e: Entry): string {
    e.hash + "  " + e.name
  }

  function RenderManifest(entries: seq<Entry>): string {
    if entries == [] then "" else EntryLine(entries[0]) + "\n" + RenderManifest(entries[1..])
  }

  /** A 64-digit hash and a one-line name without surrounding whitespace. */
  predicate WellFormed(e: Entry) {
    IsSha256Hex(e.hash) && e.name != [] && IsTrimmed(e.name) && '\n' !in e.name
  }

  lemma HexIsNoWhitespace(c: char)
    requires IsHexDigit(c)
    ensures !IsWhitespace(c) && c != '#' && c != '\n' && c != 'S'
  {
  }

  lemma {:induction false} WordLengthIs(s: string, n: nat)
    requires n <= |s| && (n == |s| || IsWhitespace(s[n]))
    requires forall i :: 0 <= i < n ==> !IsWhitespace(s[i])
    ensures WordLength(s) == n
  {
    if n > 0 {
      WordLengthIs(s[1..], n - 1);
    }
  }

  lemma {:induction false} LineLengthIs(text: string, n: nat)
    requires n <= |text| && (n == |text| || text[n] == '\n')
    requires forall i :: 0 <= i < n ==> text[i] != '\n'
    ensures LineLength(text) == n
  {
    if n > 0 {
      LineLengthIs(text[1..], n - 1);
    }
  }

  /** A string with a word character has a word. */
  lemma {:induction false} SomeWord(s: string)
    requires s != [] && !IsWhitespace(s[|s| - 1])
    ensures Words(s) != []
    decreases |s|
  {
    if IsWhitespace(s[0]) {
      SomeWord(s[1..]);
    }
  }

  lemma EntryLineShape(e: Entry)
    requires WellFormed(e)
    ensures var line := EntryLine(e);
            && |line| == 66 + |e.name| && line[..64] == e.hash && line[64..] == "  " + e.name
            && (forall i :: 0 <= i < 64 ==> IsHexDigit(line[i]))
            && IsWhitespace(line[64]) && !IsWhitespace(line[|line| - 1]) && '\n' !in line
  {
    var line := EntryLine(e);
    assert line[|line| - 1] == e.name[|e.name| - 1];
    forall i | 0 <= i < |line| ensures line[i] != '\n' {
      if i < 64 {
        HexIsNoWhitespace(line[i]);
      } else if i >= 66 {
        assert line[i] == e.name[i - 66];
      }
    }
  }

  /** What a rendered line offers: its own hash, to every name the whole line contains. */
  lemma EntryLineChecksum(e: Entry, selected: string)
    requires WellFormed(e)
    ensures LineChecksum(EntryLine(e), selected)
            == if Contains(EntryLine(e), selected) then Some(ToAsciiLower(e.hash)) else None
  {
    var line := EntryLine(e);
    EntryLineShape(e);
    HexIsNoWhitespace(line[0]);
    TrimmedIsFixed(line);
    forall i | 0 <= i < 64 ensures !IsWhitespace(line[i]) {
      HexIsNoWhitespace(line[i]);
    }
    WordLengthIs(line, 64);
    SomeWord(line[64..]);
    assert Words(line) == [e.hash] + Words(line[64..]);
    assert !(ALGORITHM <= e.hash) by {
      assert ALGORITHM[0] == 'S';
    }
  }

  lemma LinesCons(line: string, rest: string)
    requires line != [] && '\n' !in line && line[|line| - 1] != '\r'
    ensures Lines(line + "\n" + rest) == [line] + Lines(rest)
  {
    var text := line + "\n" + rest;
    LineLengthIs(text, |line|);
    assert text[..|line|] == line && text[|line| + 1..] == rest;
  }

  lemma {:induction false} RenderedLines(entries: seq<Entry>)
    requires forall i :: 0 <= i < |entries| ==> WellFormed(entries[i])
    ensures |Lines(RenderManifest(entries))| == |entries|
    ensures forall i :: 0 <= i < |entries| ==> Lines(RenderManifest(entries))[i] == EntryLine(entries[i])
  {
    if entries != [] {
      EntryLineShape(entries[0]);
      assert IsWhitespace('\r');
      LinesCons(EntryLine(entries[0]), RenderManifest(entries[1..]));
      RenderedLines(entries[1..]);
    }
  }

  /** The first entry whose rendered line contains `selected` decides. */
  function FirstContaining(entries: seq<Entry>, selected: string): Option<string> {
    if entries == [] then None
    else if Contains(EntryLine(entries[0]), selected) then Some(ToAsciiLower(entries[0].hash))
    else FirstContaining(entries[1..], selected)
  }

  lemma {:induction false} FirstOfRendered(entries: seq<Entry>, lines: seq<string>, selected: string)
    requires |lines| == |entries|
    requires forall i :: 0 <= i < |entries| ==> WellFormed(entries[i]) && lines[i] == EntryLine(entries[i])
    ensures FirstChecksum(lines, selected) == FirstContaining(entries, selected)
  {
    if entries != [] {
      EntryLineChecksum(entries[0], selected);
      FirstOfRendered(entries[1..], lines[1..], selected);
    }
  }

  /** Parsing a rendered manifest, for any selected name. */
  lemma RenderedManifestParses(entries: seq<Entry>, selected: string)
    requires forall i :: 0 <= i < |entries| ==> WellFormed(entries[i])
    ensures FirstChecksum(Lines(RenderManifest(entries)), selected) == FirstContaining(entries, selected)
  {
    RenderedLines(entries);
    FirstOfRendered(entries, Lines(RenderManifest(entries)), selected);
  }

  lemma {:induction false} FirstContainingIs(entries: seq<Entry>, k: nat, selected: string)
    requires k < |entries| && Contains(EntryLine(entries[k]), selected)
    requires forall i :: 0 <= i < k ==> !Contains(EntryLine(entries[i]), selected)
    ensures FirstContaining(entries, selected) == Some(ToAsciiLower(entries[k].hash))
  {
    if k > 0 {
      FirstContainingIs(entries[1..], k - 1, selected);
    }
  }

  /** An earlier line that contains the name (say, of a signature file) takes its place. */
  predicate Shadowed(entries: seq<Entry>, k: nat)
    requires k < |entries|
  {
    exists i :: 0 <= i < k && Contains(EntryLine(entries[i]), entries[k].name)
                && ToAsciiLower(entries[i].hash) != ToAsciiLower(entries[k].hash)
                && forall j :: 0 <= j < i ==> !Contains(EntryLine(entries[j]), entries[k].name)
  }

  function FirstIndex(entries: seq<Entry>, name: string, k: nat): (i: nat)
    requires k < |entries| && Contains(EntryLine(entries[k]), name)
    ensures i <= k && Contains(EntryLine(entries[i]), name)
    ensures forall j :: 0 <= j < i ==> !Contains(EntryLine(entries[j]), name)
  {
    if Contains(EntryLine(entries[0]), name) then 0 else 1 + FirstIndex(entries[1..], name, k - 1)
  }

  lemma OwnLineContains(e: Entry)
    requires WellFormed(e)
    ensures Contains(EntryLine(e), e.name)
  {
    assert EntryLine(e)[66..66 + |e.name|] == e.name;
    ContainsAt(EntryLine(e), e.name, 66);
  }

  /** An entry's own lower-cased hash is what its name looks up, exactly when no earlier line shadows it. */
  lemma OwnHashIffNotShadowed(entries: seq<Entry>, k: nat)
    requires forall i :: 0 <= i < |entries| ==> WellFormed(entries[i])
    requires k < |entries|
    ensures FirstChecksum(Lines(RenderManifest(entries)), entries[k].name) == Some(ToAsciiLower(entries[k].hash))
            <==> !Shadowed(entries, k)
  {
    var name := entries[k].name;
    OwnLineContains(entries[k]);
    RenderedManifestParses(entries, name);
    var first := FirstIndex(entries, name, k);
    FirstContainingIs(entries, first, name);
    ShadowIsFirst(entries, k, first);
  }

  lemma ShadowIsFirst(entries: seq<Entry>, k: nat, first: nat)
    requires first <= k < |entries| && Contains(EntryLine(entries[first]), entries[k].name)
    requires forall j :: 0 <= j < first ==> !Contains(EntryLine(entries[j]), entries[k].name)
    ensures Shadowed(entries, k) <==> ToAsciiLower(entries[first].hash) != ToAsciiLower(entries[k].hash)
  {
    if ToAsciiLower(entries[first].hash) != ToAsciiLower(entries[k].hash) {
      assert first < k;
    }
  }

  function Repeated(digit: char): string {
    seq(64, _ => digit)
  }

  /** A signature listed before its subject: looking up `tool` yields the hash of `tool.sig`. */
  lemma SignatureShadowsItsSubject()
    ensures var entries := [Entry(Repeated('a'), "tool.sig"), Entry(Repeated('b'), "tool")];
            && (forall i :: 0 <= i < |entries| ==> WellFormed(entries[i]))
            && Shadowed(entries, 1)
            && FirstChecksum(Lines(RenderManifest(entries)), "tool") == Some(Repeated('a'))
            && Repeated('a') != entries[1].hash
  {
    var entries := [Entry(Repeated('a'), "tool.sig"), Entry(Repeated('b'), "tool")];
    var line := EntryLine(entries[0]);
    SignatureEntries();
    assert line[66..70] == "tool";
    ContainsAt(line, "tool", 66);
    assert Repeated('a')[0] == 'a' && Repeated('b')[0] == 'b';
    assert ToAsciiLower(Repeated('a')) == Repeated('a');
    assert ToAsciiLower(Repeated('b')) == Repeated('b');
    assert entries[0].hash == Repeated('a') && entries[1].name == "tool";
    RenderedManifestParses(entries, "tool");
  }

  lemma SignatureEntries()
    ensures WellFormed(Entry(Repeated('a'), "tool.sig")) && WellFormed(Entry(Repeated('b'), "tool"))
  {
  }

  // ----- Hex -----

  function HexDigit(n: int): (c: char)
    requires 0 <= n < 16
    ensures IsHexDigit(c) && AsciiLower(c) == c
  {
    if n < 10 then '0' + n as char else 'a' + (n - 10) as char
  }

  function HexValue(c: char): (n: int)
    requires IsHexDigit(c)
    ensures 0 <= n < 16
  {
    if '0' <= c <= '9' then (c - '0') as int
    else if 'a' <= c <= 'f' then (c - 'a') as int + 10
    else (c - 'A') as int + 10
  }

  /** `write!("{byte:02x}")` for each byte. */
  function HexEncode(bytes: seq<Byte>): (s: string)
    ensures |s| == 2 * |bytes|
    ensures forall i :: 0 <= i < |s| ==> IsHexDigit(s[i]) && AsciiLower(s[i]) == s[i]
  {
    if bytes == [] then "" else [HexDigit(bytes[0] / 16), HexDigit(bytes[0] % 16)] + HexEncode(bytes[1..])
  }

  function HexDecode(s: string): (bytes: seq<Byte>)
    requires |s| % 2 == 0 && forall i :: 0 <= i < |s| ==> IsHexDigit(s[i])
    ensures |bytes| == |s| / 2
  {
    if s == [] then [] else [(HexValue(s[0]) * 16 + HexValue(s[1])) as Byte] + HexDecode(s[2..])
  }

  lemma HexDigitInverse(n: int)
    requires 0 <= n < 16
    ensures HexValue(HexDigit(n)) == n
  {
  }

  lemma HexValueInverse(c: char)
    requires IsHexDigit(c)
    ensures HexDigit(HexValue(c)) == AsciiLower(c)
  {
  }

  lemma {:induction false} DecodeEncode(bytes: seq<Byte>)
    ensures HexDecode(HexEncode(bytes)) == bytes
  {
    if bytes != [] {
      var s := HexEncode(bytes);
      HexDigitInverse(bytes[0] / 16);
      HexDigitInverse(bytes[0] % 16);
      assert s[2..] == HexEncode(bytes[1..]);
      DecodeEncode(bytes[1..]);
    }
  }

  lemma NibblesOf(high: int, low: int)
    requires 0 <= high < 16 && 0 <= low < 16
    ensures (high * 16 + low) / 16 == high && (high * 16 + low) % 16 == low
  {
  }

  lemma {:induction false} EncodeDecodeAt(s: string, k: nat)
    requires |s| % 2 == 0 && forall i :: 0 <= i < |s| ==> IsHexDigit(s[i])
    requires k < |s|
    ensures HexEncode(HexDecode(s))[k] == AsciiLower(s[k])
  {
    var bytes := HexDecode(s);
    assert bytes[0] == HexValue(s[0]) * 16 + HexValue(s[1]) && bytes[1..] == HexDecode(s[2..]);
    NibblesOf(HexValue(s[0]), HexValue(s[1]));
    if k == 0 {
      HexValueInverse(s[0]);
    } else if k == 1 {
      HexValueInverse(s[1]);
    } else {
      EncodeDecodeAt(s[2..], k - 2);
    }
  }

  lemma EncodeDecode(s: string)
    requires |s| % 2 == 0 && forall i :: 0 <= i < |s| ==> IsHexDigit(s[i])
    ensures HexEncode(HexDecode(s)) == ToAsciiLower(s)
  {
    forall k | 0 <= k < |s| ensures HexEncode(HexDecode(s))[k] == ToAsciiLower(s)[k] {
      EncodeDecodeAt(s, k);
    }
  }

  /** Comparing lower-cased hex text is comparing digests. */
  lemma HexComparisonIsDigestComparison(published: string, digest: seq<Byte>)
    requires IsSha256Hex(published)
    ensures ToAsciiLower(published) == HexEncode(digest) <==> HexDecode(published) == digest
  {
    EncodeDecode(published);
    if ToAsciiLower(published) == HexEncode(digest) {
      DecodeEncode(digest);
      DecodeEncode(HexDecode(published));
    }
  }

  // ----- Hashing a file in chunks -----

  const CHUNK: nat := 65536

  /** What one `read` does: deliver up to so many bytes (at least one, at most a buffer), or fail. */
  datatype ReadResult = Deliver(size: nat) | ReadFails

  function ChunkLength(size: nat, available: nat): (n: nat)
    ensures n <= available && n <= CHUNK && (n == 0 <==> available == 0)
  {
    var n := if size == 0 then 1 else if size > CHUNK then CHUNK else size;
    if n > available then available else n
  }

  /** No read fails before the one that finds the end of the file; later ones deliver all they can. */
  predicate ReadsThrough(content: seq<Byte>, results: seq<ReadResult>)
    decreases |results|
  {
    if results == [] then true
    else match results[0]
      case ReadFails => false
      case Deliver(size) => content == [] || ReadsThrough(content[ChunkLength(size, |content|)..], results[1..])
  }

  /** Reading fails only if some read does. */
  lemma {:induction false} ReliableReadsGoThrough(content: seq<Byte>, results: seq<ReadResult>)
    requires ReadFails !in results
    ensures ReadsThrough(content, results)
    decreases |results|
  {
    if results != [] && content != [] {
      ReliableReadsGoThrough(content[ChunkLength(results[0].size, |content|)..], results[1..]);
    }
  }

  class FileReader {
    var rest: seq<Byte>
    var results: seq<ReadResult>

    constructor (content: seq<Byte>, results: seq<ReadResult>)
      ensures rest == content && this.results == results
    {
      this.rest, this.results := content, results;
    }

    method Read() returns (chunk: Option<seq<Byte>>)
      modifies this
      ensures chunk.None? <==> old(results) != [] && old(results)[0].ReadFails?
      ensures results == if old(results) == [] then [] else old(results)[1..]
      ensures chunk.Some? ==>
                var size := if old(results) == [] then CHUNK else old(results)[0].size;
                var n := ChunkLength(size, |old(rest)|);
                chunk.value == old(rest)[..n] && rest == old(rest)[n..]
    {
      var size := CHUNK;
      if results != [] {
        var result := results[0];
        results := results[1..];
        if result.ReadFails? {
          return None;
        }
        size := result.size;
      }
      var n := ChunkLength(size, |rest|);
      chunk := Some(rest[..n]);
      rest := rest[n..];
    }
  }

  /** Whatever sizes the reads return, the hash is that of the whole file, unless it cannot be opened or read through. */
  method Sha256File(digest: seq<Byte> -> seq<Byte>, content: seq<Byte>, opens: bool, results: seq<ReadResult>)
    returns (encoded: Option<string>)
    ensures encoded == if opens && ReadsThrough(content, results) then Some(HexEncode(digest(content))) else None
  {
    if !opens {
      return None;
    }
    var file := new FileReader(content, results);
    var hashed: seq<Byte> := [];
    var more := true;
    while more
      invariant hashed + file.rest == content
      invariant more ==> (ReadsThrough(content, results) <==> ReadsThrough(file.rest, file.results))
      invariant !more ==> hashed == content && ReadsThrough(content, results)
      decreases |file.rest|, more
    {
      ghost var rest := file.rest;
      NextRead(file.rest, file.results);
      var chunk := file.Read();
      if chunk.None? {
        return None;
      }
      assert rest == chunk.value + file.rest;
      if chunk.value == [] {
        more := false;
      } else {
        hashed := hashed + chunk.value;
      }
    }
    var text := EncodeDigest(digest(hashed));
    encoded := Some(text);
  }

  /** Whether reading gets through is decided by the next read and what remains after it. */
  lemma NextRead(content: seq<Byte>, results: seq<ReadResult>)
    ensures results != [] && results[0].ReadFails? ==> !ReadsThrough(content, results)
    ensures content == [] && !(results != [] && results[0].ReadFails?) ==> ReadsThrough(content, results)
    ensures content != [] && results != [] && results[0].Deliver? ==>
              (ReadsThrough(content, results) <==>
               ReadsThrough(content[ChunkLength(results[0].size, |content|)..], results[1..]))
  {
  }

  method EncodeDigest(bytes: seq<Byte>) returns (encoded: string)
    ensures encoded == HexEncode(bytes)
  {
    encoded := "";
    for i := 0 to |bytes|
      invariant HexEncode(bytes) == encoded + HexEncode(bytes[i..])
    {
      ghost var rest := bytes[i..];
      assert rest[0] == bytes[i] && rest[1..] == bytes[i + 1..];
      encoded := encoded + [HexDigit(bytes[i] / 16), HexDigit(bytes[i] % 16)];
    }
    assert bytes[|bytes|..] == [];
  }
}
