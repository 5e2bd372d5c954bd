/** Which release assets are for an executable at all, told by the characters of their names. */
module AssetNames {
  import opened Prelude
  import opened Text
  import opened TextLaws
  import opened Assets
  import opened PlatformNames

  /** Equal up to ASCII case, and up to `_` and `-`. */
  predicate Alike(x: char, y: char) {
    || x == y
    || (x in {'_', '-'} && y in {'_', '-'})
    || (65 <= x as int <= 90 && y as int == x as int + 32)
    || (65 <= y as int <= 90 && x as int == y as int + 32)
  }

  predicate HoldsAt(name: string, text: string, i: nat) {
    i + |text| <= |name| && forall k :: 0 <= k < |text| ==> Alike(name[i + k], text[k])
  }

  /** The name holds the text somewhere, character by character alike. */
  predicate Holds(name: string, text: string) {
    exists i :: 0 <= i <= |name| && HoldsAt(name, text, i)
  }

  function Folded(s: string): (r: string)
    ensures |r| == |s|
  {
    Dashed(ToAsciiLower(s))
  }

  lemma AlikeIsFoldedEqual(s: string, t: string, i: nat, k: nat)
    requires i < |s| && k < |t|
    ensures Alike(s[i], t[k]) <==> Folded(s)[i] == Folded(t)[k]
  {
  }

  lemma HoldsAtIff(name: string, text: string, i: nat)
    ensures HoldsAt(name, text, i) <==> OccursAt(Folded(name), Folded(text), i)
  {
    if i + |text| <= |name| {
      var piece := Folded(name)[i..i + |text|];
      forall k | 0 <= k < |text| ensures Alike(name[i + k], text[k]) <==> piece[k] == Folded(text)[k] {
        AlikeIsFoldedEqual(name, text, i + k, k);
      }
    }
  }

  lemma HoldsIff(name: string, text: string)
    ensures Holds(name, text) <==> Contains(Folded(name), Folded(text))
  {
    if i :| 0 <= i <= |name| && HoldsAt(name, text, i) {
      HoldsAtIff(name, text, i);
      assert OccursAt(Folded(name), Folded(text), i);
    }
    if i :| 0 <= i <= |name| && OccursAt(Folded(name), Folded(text), i) {
      HoldsAtIff(name, text, i);
    }
  }

  // ----- Checksum files -----

  /** The name ends so, in any ASCII case. */
  predicate HasEnding(name: string, ending: string) {
    |ending| <= |name| && SameLetters(name[|name| - |ending|..], ending)
  }

  predicate HoldsLettersAt(name: string, text: string, i: nat) {
    i + |text| <= |name| && SameLetters(name[i..i + |text|], text)
  }

  predicate HoldsLetters(name: string, text: string) {
    exists i :: 0 <= i <= |name| && HoldsLettersAt(name, text, i)
  }

  predicate IsChecksumName(name: string) {
    || HasEnding(name, ".sha256") || HasEnding(name, ".sha256sum") || HasEnding(name, ".sha256.txt")
    || HoldsLetters(name, "checksum") || HoldsLetters(name, "sha256sum")
  }

  /** No upper-case letter. */
  predicate IsLower(s: string) {
    forall i :: 0 <= i < |s| ==> !(65 <= s[i] as int <= 90)
  }

  lemma LowerSlice(name: string, i: nat, j: nat)
    requires i <= j <= |name|
    ensures ToAsciiLower(name)[i..j] == ToAsciiLower(name[i..j])
  {
  }

  lemma EndingIff(name: string, ending: string)
    requires IsLower(ending)
    ensures HasEnding(name, ending) <==> EndsWith(ToAsciiLower(name), ending)
  {
    if |ending| <= |name| {
      var n := |name| - |ending|;
      LowerSlice(name, n, |name|);
      LowerIs(name[n..], ending);
      assert name[n..|name|] == name[n..] && ToAsciiLower(name)[n..|name|] == ToAsciiLower(name)[n..];
    }
  }

  lemma HoldsLettersAtIff(name: string, text: string, i: nat)
    requires IsLower(text)
    ensures HoldsLettersAt(name, text, i) <==> OccursAt(ToAsciiLower(name), text, i)
  {
    if i + |text| <= |name| {
      LowerSlice(name, i, i + |text|);
      LowerIs(name[i..i + |text|], text);
    }
  }

  lemma HoldsLettersIff(name: string, text: string)
    requires IsLower(text)
    ensures HoldsLetters(name, text) <==> Contains(ToAsciiLower(name), text)
  {
    if i :| 0 <= i <= |name| && HoldsLettersAt(name, text, i) {
      HoldsLettersAtIff(name, text, i);
      assert OccursAt(ToAsciiLower(name), text, i);
    }
    if i :| 0 <= i <= |name| && OccursAt(ToAsciiLower(name), text, i) {
      HoldsLettersAtIff(name, text, i);
    }
  }

  lemma ChecksumNameIff(name: string)
    ensures IsChecksumName(name) <==> IsChecksumAsset(ToAsciiLower(name))
  {
    EndingIff(name, ".sha256");
    EndingIff(name, ".sha256sum");
    EndingIff(name, ".sha256.txt");
    HoldsLettersIff(name, "checksum");
    HoldsLettersIff(name, "sha256sum");
  }

  // ----- Selection -----

  /** The asset is no checksum file, is named for the executable, and names the host's system and architecture. */
  predicate Fits(binary: string, platform: Platform, name: string) {
    && !IsChecksumName(name) && Holds(name, binary)
    && ContainsAny(Folded(name), OsNeedles(platform.os)) && ContainsAny(Folded(name), ArchNeedles(platform.arch))
  }

  lemma ScoredIffFits(binary: string, platform: Platform, asset: ReleaseAsset)
    ensures ScoreAsset(binary, platform, asset).Some? <==> Fits(binary, platform, asset.name)
  {
    ChecksumNameIff(asset.name);
    HoldsIff(asset.name, binary);
    OsIsTable(platform.os, Folded(asset.name));
    ArchIsTable(platform.arch, Folded(asset.name));
  }

  /** A release with one asset offers it exactly when it fits, and nothing otherwise. */
  lemma LoneAssetIsSelectedIff(binary: string, platform: Platform, asset: ReleaseAsset)
    ensures Select(Scorer(binary, platform), [asset]) == if Fits(binary, platform, asset.name) then Ok(asset) else Err(NoAsset)
  {
    ScoredIffFits(binary, platform, asset);
    var score := Scorer(binary, platform);
    if score(asset).Some? {
      LoneAssetIsSelected(score, asset);
    } else {
      SelectDecides(score, [asset]);
      assert NoneScored(score, multiset([asset]));
    }
  }

  /** A selected asset is in the release, and its name holds the executable's. */
  lemma SelectedHoldsName(binary: string, platform: Platform, assets: seq<ReleaseAsset>, asset: ReleaseAsset)
    requires Select(Scorer(binary, platform), assets) == Ok(asset)
    ensures asset in assets && Fits(binary, platform, asset.name) && Holds(asset.name, binary)
  {
    WinnerIsStrictBest(Scorer(binary, platform), assets);
    ScoredIffFits(binary, platform, asset);
    assert asset in multiset(assets);
  }

  /** The assets whose names hold the executable's, in order. */
  function NamedFor(binary: string, assets: seq<ReleaseAsset>): seq<ReleaseAsset>
    decreases |assets|
  {
    if assets == [] then []
    else
      var front, last := NamedFor(binary, assets[..|assets| - 1]), assets[|assets| - 1];
      if Holds(last.name, binary) then front + [last] else front
  }

  lemma {:induction false} OthersAreNoCandidates(score: Scoring, binary: string, assets: seq<ReleaseAsset>)
    requires forall a :: score(a).Some? ==> Holds(a.name, binary)
    ensures Candidates(score, assets) == Candidates(score, NamedFor(binary, assets))
    decreases |assets|
  {
    if assets != [] {
      var last, front := assets[|assets| - 1], assets[..|assets| - 1];
      OthersAreNoCandidates(score, binary, front);
      if Holds(last.name, binary) {
        CandidatesSnoc(score, NamedFor(binary, front), last);
      } else {
        assert Candidates(score, front) + [] == Candidates(score, front);
      }
    }
  }

  lemma CandidatesSnoc(score: Scoring, assets: seq<ReleaseAsset>, last: ReleaseAsset)
    ensures Candidates(score, assets + [last])
            == Candidates(score, assets) + (match score(last) case Some(s) => [(s, last)] case None => [])
  {
    assert (assets + [last])[..|assets|] == assets;
  }

  /** Assets of other executables neither win nor make the selection ambiguous: without them it is the same. */
  lemma OtherExecutablesAreIgnored(binary: string, platform: Platform, assets: seq<ReleaseAsset>)
    ensures Select(Scorer(binary, platform), assets) == Select(Scorer(binary, platform), NamedFor(binary, assets))
  {
    forall a | Scorer(binary, platform)(a).Some? ensures Holds(a.name, binary) {
      ScoredIffFits(binary, platform, a);
    }
    OthersAreNoCandidates(Scorer(binary, platform), binary, assets);
  }
}
