/** What a checksum file says, told by the characters of its lines, and which assets are checksum files of another. */
module ChecksumLines {
  import opened Prelude
  import opened Text
  import opened TextLaws
  import opened Assets
  import opened Checksums

  /** 64 hexadecimal digits of either case. */
  predicate IsDigest(s: string) {
    |s| == 64 && forall i :: 0 <= i < 64 ==> var n := s[i] as int; 48 <= n <= 57 || 65 <= n <= 70 || 97 <= n <= 102
  }

  lemma DigestIsSolid(s: string)
    requires IsDigest(s)
    ensures IsSha256Hex(s) && HasSolidEnds(s) && s[0] != '#' && s[0] != 'S'
    ensures forall i :: 0 <= i < |s| ==> !IsWhitespace(s[i])
  {
    forall i | 0 <= i < |s| ensures !IsWhitespace(s[i]) {
      WhitespaceIsSpaceCode(s[i]);
    }
    assert !IsSpaceCode(s[0] as int) && !IsSpaceCode(s[63] as int);
  }

  /** The digest with `SHA256:` in front of it `n` times. */
  function Prefixed(n: nat, digest: string): string {
    if n == 0 then digest else "SHA256:" + Prefixed(n - 1, digest)
  }

  lemma {:induction false} PrefixedIsSolid(n: nat, digest: string)
    requires IsDigest(digest)
    ensures StripAlgorithm(Prefixed(n, digest)) == digest
    ensures Prefixed(n, digest) != [] && Prefixed(n, digest)[0] != '#' && HasSolidEnds(Prefixed(n, digest))
    ensures forall i :: 0 <= i < |Prefixed(n, digest)| ==> !IsWhitespace(Prefixed(n, digest)[i])
  {
    DigestIsSolid(digest);
    if n == 0 {
      assert ALGORITHM[0] == 'S';
    } else {
      var rest := Prefixed(n - 1, digest);
      PrefixedIsSolid(n - 1, digest);
      AlgorithmIsSolid(rest);
    }
  }

  lemma AlgorithmIsSolid(rest: string)
    requires rest != [] && HasSolidEnds(rest) && forall i :: 0 <= i < |rest| ==> !IsWhitespace(rest[i])
    ensures var s := "SHA256:" + rest;
            && ALGORITHM <= s && s[|ALGORITHM|..] == rest && s[0] == 'S' && HasSolidEnds(s)
            && forall i :: 0 <= i < |s| ==> !IsWhitespace(s[i])
  {
    var s := "SHA256:" + rest;
    assert s[0] == 'S' && s[|s| - 1] == rest[|rest| - 1];
    forall i | 0 <= i < |s| ensures !IsWhitespace(s[i]) {
      if i >= 7 {
        assert s[i] == rest[i - 7];
      }
    }
  }

  /** A word that stands for a digest. */
  predicate IsDigestWord(word: string, digest: string) {
    && word != [] && word[0] != '#' && HasSolidEnds(word)
    && (forall i :: 0 <= i < |word| ==> !IsWhitespace(word[i]))
    && StripAlgorithm(word) == digest && IsSha256Hex(digest)
  }

  lemma PrefixedIsDigestWord(n: nat, digest: string)
    requires IsDigest(digest)
    ensures IsDigestWord(Prefixed(n, digest), digest)
  {
    PrefixedIsSolid(n, digest);
    DigestIsSolid(digest);
  }

  lemma DigestLine(before: string, word: string, after: string, digest: string, selected: string)
    requires IsBlank(before) && IsBlank(after) && IsDigestWord(word, digest)
    ensures LineChecksum(before + word + after, selected) == Some(ToAsciiLower(digest))
  {
    TrimIs(before, word, after);
    WordLengthIs(word, |word|);
    assert word[|word|..] == [] && word[..|word|] == word;
    assert Words(word) == [word];
  }

  /** A line that holds a digest and nothing else offers it, lower-cased, to every name; `SHA256:` in front is ignored. */
  lemma BareLine(before: string, n: nat, digest: string, after: string, selected: string)
    requires IsBlank(before) && IsBlank(after) && IsDigest(digest)
    ensures LineChecksum(before + Prefixed(n, digest) + after, selected) == Some(ToAsciiLower(digest))
  {
    PrefixedIsDigestWord(n, digest);
    DigestLine(before, Prefixed(n, digest), after, digest, selected);
  }

  /** Blank lines and comments offer nothing. */
  lemma SilentLine(before: string, text: string, selected: string)
    requires IsBlank(before) && (IsBlank(text) || text[0] == '#')
    ensures LineChecksum(before + text, selected) == None
  {
    if IsBlank(text) {
      TrimIs(before + text, [], []);
      assert before + text + [] + [] == before + text;
    } else {
      CommentStaysComment(before, text);
    }
  }

  lemma CommentStaysComment(before: string, text: string)
    requires IsBlank(before) && text != [] && text[0] == '#'
    ensures Trim(before + text) != [] && Trim(before + text)[0] == '#'
  {
    assert !IsSpaceCode('#' as int);
    TrimStartIs(before, text);
    TrimEndKeepsHead(text);
  }

  lemma {:induction false} TrimEndKeepsHead(s: string)
    requires s != [] && !IsWhitespace(s[0])
    ensures TrimEnd(s) != [] && TrimEnd(s)[0] == s[0]
    decreases |s|
  {
    if IsWhitespace(s[|s| - 1]) {
      TrimEndKeepsHead(s[..|s| - 1]);
    }
  }

  // ----- A file holding one digest -----

  /** A file that holds a digest and otherwise only blanks, line breaks included, gives that digest for every name. */
  lemma BareFile(before: string, n: nat, digest: string, after: string, selected: string)
    requires IsBlank(before) && IsBlank(after) && IsDigest(digest)
    ensures FirstChecksum(Lines(before + Prefixed(n, digest) + after), selected) == Some(ToAsciiLower(digest))
  {
    PrefixedIsDigestWord(n, digest);
    DigestFile(before, Prefixed(n, digest), after, digest, selected);
  }

  lemma {:induction false} DigestFile(before: string, word: string, after: string, digest: string, selected: string)
    requires IsBlank(before) && IsBlank(after) && IsDigestWord(word, digest)
    ensures FirstChecksum(Lines(before + word + after), selected) == Some(ToAsciiLower(digest))
    decreases |before|
  {
    var k := LineLength(before);
    if k < |before| {
      var rest := before[k + 1..];
      DigestFile(rest, word, after, digest, selected);
      CutAtBreak(before, k, word, after);
      BlankLineIsSkipped(before[..k], rest + word + after, selected);
    } else {
      DigestOnFirstLine(before, word, after, digest, selected);
    }
  }

  lemma CutAtBreak(before: string, k: nat, word: string, after: string)
    requires k < |before| && before[k] == '\n'
    ensures before + word + after == before[..k] + "\n" + (before[k + 1..] + word + after)
  {
    assert before == before[..k] + "\n" + before[k + 1..];
  }

  lemma FirstLine(line: string, rest: string)
    requires '\n' !in line
    ensures Lines(line + "\n" + rest) == [DropCr(line)] + Lines(rest)
  {
    var text := line + "\n" + rest;
    LineLengthIs(text, |line|);
    assert text[..|line|] == line && text[|line| + 1..] == rest;
  }

  lemma BlankLineIsSkipped(line: string, rest: string, selected: string)
    requires IsBlank(line) && '\n' !in line
    ensures FirstChecksum(Lines(line + "\n" + rest), selected) == FirstChecksum(Lines(rest), selected)
  {
    FirstLine(line, rest);
    SilentLine([], DropCr(line), selected);
    assert [] + DropCr(line) == DropCr(line);
  }

  lemma DigestOnFirstLine(before: string, word: string, after: string, digest: string, selected: string)
    requires IsBlank(before) && IsBlank(after) && IsDigestWord(word, digest) && '\n' !in before
    ensures FirstChecksum(Lines(before + word + after), selected) == Some(ToAsciiLower(digest))
  {
    var k := LineLength(after);
    NoBreakInLine(before, word, after[..k], digest);
    if k < |after| {
      FirstLine(before + word + after[..k], after[k + 1..]);
      CutAfter(before, word, after, k);
      DigestLineWithCr(before, word, after[..k], digest, selected);
    } else {
      assert after[..k] == after;
      OnlyLine(before + word + after);
      DigestLine(before, word, after, digest, selected);
    }
  }

  lemma CutAfter(before: string, word: string, after: string, k: nat)
    requires k < |after| && after[k] == '\n'
    ensures before + word + after == before + word + after[..k] + "\n" + after[k + 1..]
  {
    assert after == after[..k] + "\n" + after[k + 1..];
  }

  lemma NoBreakInLine(before: string, word: string, after: string, digest: string)
    requires IsDigestWord(word, digest) && '\n' !in before && '\n' !in after
    ensures '\n' !in before + word + after && before + word + after != []
  {
    assert IsWhitespace('\n');
  }

  lemma OnlyLine(line: string)
    requires line != [] && '\n' !in line
    ensures Lines(line) == [line]
  {
    LineLengthIs(line, |line|);
  }

  lemma DigestLineWithCr(before: string, word: string, after: string, digest: string, selected: string)
    requires IsBlank(before) && IsBlank(after) && IsDigestWord(word, digest)
    ensures LineChecksum(DropCr(before + word + after), selected) == Some(ToAsciiLower(digest))
  {
    if after != [] && after[|after| - 1] == '\r' {
      var shorter := after[..|after| - 1];
      assert DropCr(before + word + after) == before + word + shorter;
      DigestLine(before, word, shorter, digest, selected);
    } else {
      KeepsEnd(before, word, after, digest);
      DigestLine(before, word, after, digest, selected);
    }
  }

  lemma KeepsEnd(before: string, word: string, after: string, digest: string)
    requires IsDigestWord(word, digest) && (after != [] ==> after[|after| - 1] != '\r')
    ensures DropCr(before + word + after) == before + word + after
  {
    var line := before + word + after;
    assert IsWhitespace('\r');
    assert line[|line| - 1] == if after == [] then word[|word| - 1] else after[|after| - 1];
  }

  // ----- Names of checksum assets -----

  /** Equal up to ASCII case. */
  predicate SameName(a: string, b: string) {
    |a| == |b| && forall i :: 0 <= i < |a| ==>
      || a[i] == b[i]
      || (65 <= a[i] as int <= 90 && b[i] as int == a[i] as int + 32)
      || (65 <= b[i] as int <= 90 && a[i] as int == b[i] as int + 32)
  }

  lemma SameNameIff(a: string, b: string)
    ensures SameName(a, b) <==> ToAsciiLower(a) == ToAsciiLower(b)
  {
    if |a| == |b| {
      forall i | 0 <= i < |a|
        ensures ToAsciiLower(a)[i] == ToAsciiLower(b)[i] <==>
                (|| a[i] == b[i]
                 || (65 <= a[i] as int <= 90 && b[i] as int == a[i] as int + 32)
                 || (65 <= b[i] as int <= 90 && a[i] as int == b[i] as int + 32))
      {
      }
    }
  }

  const SIDECARS: seq<string> := [".sha256", ".sha256sum", ".sha256.txt"]

  const MANIFESTS: seq<string> := ["sha256sums", "sha256sums.txt", "checksums.txt", "checksums.sha256"]

  predicate IsSidecar(name: string, selected: string) {
    exists ending :: ending in SIDECARS && SameName(name, selected + ending)
  }

  predicate IsListing(name: string) {
    exists listing :: listing in MANIFESTS && SameLetters(name, listing)
  }

  lemma SidecarIff(name: string, selected: string)
    ensures IsDirectChecksum(name, selected) <==> IsSidecar(name, selected)
  {
    SameNameIff(name, selected + ".sha256");
    SameNameIff(name, selected + ".sha256sum");
    SameNameIff(name, selected + ".sha256.txt");
    assert SIDECARS[0] in SIDECARS && SIDECARS[1] in SIDECARS && SIDECARS[2] in SIDECARS;
  }

  lemma ListingIff(name: string)
    ensures IsManifest(name) <==> IsListing(name)
  {
    LowerIs(name, "sha256sums");
    LowerIs(name, "sha256sums.txt");
    LowerIs(name, "checksums.txt");
    LowerIs(name, "checksums.sha256");
    assert MANIFESTS[0] in MANIFESTS && MANIFESTS[1] in MANIFESTS && MANIFESTS[2] in MANIFESTS && MANIFESTS[3] in MANIFESTS;
  }

  /** The first asset of the kind. */
  predicate IsFirstOf(assets: seq<ReleaseAsset>, kind: string -> bool, i: nat) {
    i < |assets| && kind(assets[i].name) && forall j :: 0 <= j < i ==> !kind(assets[j].name)
  }

  /** The first sidecar of the selected asset, else the first manifest, else nothing. */
  lemma FoundChecksumAsset(release: Release, selected: ReleaseAsset, i: nat)
    ensures IsFirstOf(release.assets, name => IsSidecar(name, selected.name), i) ==>
              FindChecksumAsset(release, selected) == Some(release.assets[i])
    ensures (forall a :: a in release.assets ==> !IsSidecar(a.name, selected.name)) && IsFirstOf(release.assets, name => IsListing(name), i) ==>
              FindChecksumAsset(release, selected) == Some(release.assets[i])
    ensures (forall a :: a in release.assets ==> !IsSidecar(a.name, selected.name) && !IsListing(a.name)) ==>
              FindChecksumAsset(release, selected) == None
  {
    forall name ensures IsDirectChecksum(name, selected.name) <==> IsSidecar(name, selected.name) {
      SidecarIff(name, selected.name);
    }
    forall name ensures IsManifest(name) <==> IsListing(name) {
      ListingIff(name);
    }
  }
}
