/** Release asset scoring and selection of self_update.rs. */
module Assets {
  import opened Prelude
  import opened Text

  datatype ReleaseAsset = ReleaseAsset(name: string, url: string)

  datatype Release = Release(tagName: string, assets: seq<ReleaseAsset>)

  /** `std::env::consts::OS` and `ARCH`. */
  datatype Platform = Platform(os: string, arch: string)

  datatype SelectError = Ambiguous(first: string, second: string) | NoAsset

  function Dashed(s: string): string {
    seq(|s|, i requires 0 <= i < |s| => if s[i] == '_' then '-' else s[i])
  }

  predicate ContainsAny(haystack: string, needles: seq<string>) {
    exists needle :: needle in needles && Contains(haystack, needle)
  }

  /** Expects a lower-cased name. */
  predicate IsChecksumAsset(name: string) {
    || EndsWith(name, ".sha256")
    || EndsWith(name, ".sha256sum")
    || EndsWith(name, ".sha256.txt")
    || Contains(name, "checksum")
    || Contains(name, "sha256sum")
  }

  predicate MatchesOs(os: string, name: string) {
    || (os == "macos" && ContainsAny(name, ["macos", "darwin", "apple-darwin"]))
    || (os == "linux" && ContainsAny(name, ["linux", "unknown-linux"]))
    || (os == "windows" && ContainsAny(name, ["windows", "pc-windows", "win64"]))
  }

  predicate MatchesArch(arch: string, name: string) {
    || (arch == "x86_64" && ContainsAny(name, ["x86-64", "x86_64", "amd64"]))
    || (arch == "aarch64" && ContainsAny(name, ["aarch64", "arm64"]))
    || (arch == "x86" && ContainsAny(name, ["i686", "x86"]))
    || Contains(name, arch)
  }

  function PackagingScore(name: string): nat {
    if EndsWith(name, ".tar.gz") || EndsWith(name, ".tgz") then 8
    else if EndsWith(name, ".zip") then 7
    else 10
  }

  function ScoreAsset(binary: string, platform: Platform, asset: ReleaseAsset): (score: Option<nat>)
    ensures score.Some? ==> !IsChecksumAsset(ToAsciiLower(asset.name))
  {
    var name := ToAsciiLower(asset.name);
    if IsChecksumAsset(name) then None
    else
      var normalized := Dashed(name);
      if !Contains(normalized, Dashed(ToAsciiLower(binary))) then None
      else if !MatchesOs(platform.os, normalized) then None
      else if !MatchesArch(platform.arch, normalized) then None
      else Some(50 + 40 + 30 + PackagingScore(name))
  }

  lemma ContainsPrefix(s: string, part: string, n: nat)
    requires n <= |part| && Contains(s, part)
    ensures Contains(s, part[..n])
  {
    var i :| 0 <= i <= |s| && OccursAt(s, part, i);
    assert s[i..i + n] == s[i..i + |part|][..n];
    assert OccursAt(s, part[..n], i);
  }

  lemma X8664MatchesBoth(name: string)
    requires Contains(name, "x86-64")
    ensures MatchesArch("x86", name) && MatchesArch("x86_64", name)
  {
    var needles := ["x86-64", "x86_64", "amd64"];
    assert needles[0] in needles && ContainsAny(name, needles);
    assert "x86-64"[..3] == "x86";
    ContainsPrefix(name, "x86-64", 3);
  }

  /**
   The 32-bit needle is a prefix of the 64-bit one: an asset spelled `x86-64` (or `x86_64`) scores the
   same on both architectures, so a 32-bit installation may select it.
   */
  lemma X86TakesX8664Assets(binary: string, os: string, asset: ReleaseAsset)
    requires Contains(Dashed(ToAsciiLower(asset.name)), "x86-64")
    ensures ScoreAsset(binary, Platform(os, "x86"), asset) == ScoreAsset(binary, Platform(os, "x86_64"), asset)
  {
    X8664MatchesBoth(Dashed(ToAsciiLower(asset.name)));
  }

  lemma PackagingRanks(bare: string, tar: string, zip: string)
    requires EndsWith(tar, ".tar.gz") || EndsWith(tar, ".tgz")
    requires EndsWith(zip, ".zip")
    requires !EndsWith(bare, ".tar.gz") && !EndsWith(bare, ".tgz") && !EndsWith(bare, ".zip")
    ensures PackagingScore(zip) < PackagingScore(tar) < PackagingScore(bare)
  {
    LastCharacter(zip, ".zip");
    if EndsWith(zip, ".tar.gz") {
      LastCharacter(zip, ".tar.gz");
    } else if EndsWith(zip, ".tgz") {
      LastCharacter(zip, ".tgz");
    }
  }

  lemma OnlyPackagingDiffers(binary: string, platform: Platform, a: ReleaseAsset, b: ReleaseAsset)
    requires ScoreAsset(binary, platform, a).Some? && ScoreAsset(binary, platform, b).Some?
    ensures ScoreAsset(binary, platform, a).value < ScoreAsset(binary, platform, b).value
            <==> PackagingScore(ToAsciiLower(a.name)) < PackagingScore(ToAsciiLower(b.name))
  {
  }

  /** Among assets that fit, a bare executable is preferred to a tarball and a tarball to a zip file. */
  lemma BareBeatsTarBeatsZip(binary: string, platform: Platform, bare: ReleaseAsset, tar: ReleaseAsset, zip: ReleaseAsset)
    requires ScoreAsset(binary, platform, bare).Some? && ScoreAsset(binary, platform, tar).Some? && ScoreAsset(binary, platform, zip).Some?
    requires EndsWith(ToAsciiLower(tar.name), ".tar.gz") || EndsWith(ToAsciiLower(tar.name), ".tgz")
    requires EndsWith(ToAsciiLower(zip.name), ".zip")
    requires var name := ToAsciiLower(bare.name); !EndsWith(name, ".tar.gz") && !EndsWith(name, ".tgz") && !EndsWith(name, ".zip")
    ensures ScoreAsset(binary, platform, zip).value < ScoreAsset(binary, platform, tar).value
    ensures ScoreAsset(binary, platform, tar).value < ScoreAsset(binary, platform, bare).value
  {
    PackagingRanks(ToAsciiLower(bare.name), ToAsciiLower(tar.name), ToAsciiLower(zip.name));
    OnlyPackagingDiffers(binary, platform, zip, tar);
    OnlyPackagingDiffers(binary, platform, tar, bare);
  }

  lemma LastCharacter(s: string, suffix: string)
    requires suffix != [] && EndsWith(s, suffix)
    ensures s[|s| - 1] == suffix[|suffix| - 1]
  {
  }

  // ----- Selection -----

  /** Selection depends on the scoring only through its values. */
  type Scoring = ReleaseAsset -> Option<nat>

  type Candidate = (nat, ReleaseAsset)

  function Candidates(score: Scoring, assets: seq<ReleaseAsset>): seq<Candidate>
    decreases |assets|
  {
    if assets == [] then []
    else
      var last := assets[|assets| - 1];
      Candidates(score, assets[..|assets| - 1]) + (match score(last) case Some(s) => [(s, last)] case None => [])
  }

  predicate Descending(s: seq<Candidate>) {
    forall i, j :: 0 <= i < j < |s| ==> s[i].0 >= s[j].0
  }

  /** Where a stable descending sort puts `c`: before the first strictly smaller score. */
  function Position(c: Candidate, s: seq<Candidate>): (p: nat)
    requires Descending(s)
    ensures p <= |s|
    ensures forall i :: 0 <= i < p ==> s[i].0 >= c.0
    ensures forall i :: p <= i < |s| ==> s[i].0 < c.0
  {
    if s == [] || s[0].0 < c.0 then 0 else 1 + Position(c, s[1..])
  }

  function InsertDescending(c: Candidate, s: seq<Candidate>): (r: seq<Candidate>)
    requires Descending(s)
    ensures Descending(r) && multiset(r) == multiset(s) + multiset{c}
  {
    var p := Position(c, s);
    assert s == s[..p] + s[p..];
    s[..p] + [c] + s[p..]
  }

  function SortDescending(s: seq<Candidate>): (r: seq<Candidate>)
    ensures Descending(r) && multiset(r) == multiset(s)
    decreases |s|
  {
    if s == [] then []
    else
      assert s == s[..|s| - 1] + [s[|s| - 1]];
      InsertDescending(s[|s| - 1], SortDescending(s[..|s| - 1]))
  }

  /** The decision taken on the two best candidates. */
  function Pick(sorted: seq<Candidate>): Result<ReleaseAsset, SelectError> {
    if |sorted| >= 2 && sorted[0].0 == sorted[1].0 then Err(Ambiguous(sorted[0].1.name, sorted[1].1.name))
    else if sorted == [] then Err(NoAsset)
    else Ok(sorted[0].1)
  }

  function Scorer(binary: string, platform: Platform): Scoring {
    asset => ScoreAsset(binary, platform, asset)
  }

  method CollectCandidates(score: Scoring, assets: seq<ReleaseAsset>) returns (candidates: seq<Candidate>)
    ensures candidates == Candidates(score, assets)
  {
    candidates := [];
    for i := 0 to |assets|
      invariant candidates == Candidates(score, assets[..i])
    {
      assert assets[..i + 1][..i] == assets[..i];
      match score(assets[i]) {
        case Some(s) => candidates := candidates + [(s, assets[i])];
        case None =>
      }
    }
    assert assets[..|assets|] == assets;
  }

  /** The stable sort by descending score. */
  lemma SortStep(s: seq<Candidate>, i: nat)
    requires i < |s|
    ensures SortDescending(s[..i + 1]) == InsertDescending(s[i], SortDescending(s[..i]))
  {
    assert s[..i + 1][..i] == s[..i];
  }

  method SortCandidates(candidates: seq<Candidate>) returns (sorted: seq<Candidate>)
    ensures sorted == SortDescending(candidates)
  {
    sorted := [];
    for i := 0 to |candidates|
      invariant sorted == SortDescending(candidates[..i])
    {
      SortStep(candidates, i);
      sorted := InsertDescending(candidates[i], sorted);
    }
    assert candidates[..|candidates|] == candidates;
  }

  method SelectAsset(binary: string, platform: Platform, release: Release)
    returns (r: Result<ReleaseAsset, SelectError>)
    ensures r == Select(Scorer(binary, platform), release.assets)
  {
    var candidates := CollectCandidates(Scorer(binary, platform), release.assets);
    var sorted := SortCandidates(candidates);
    r := Pick(sorted);
  }

  function Select(score: Scoring, assets: seq<ReleaseAsset>): Result<ReleaseAsset, SelectError> {
    Pick(SortDescending(Candidates(score, assets)))
  }

  /** Every scored asset is a candidate as often as it is listed. */
  lemma {:induction false} CandidateCount(score: Scoring, assets: seq<ReleaseAsset>, s: nat, a: ReleaseAsset)
    ensures multiset(Candidates(score, assets))[(s, a)] == if score(a) == Some(s) then multiset(assets)[a] else 0
    decreases |assets|
  {
    if assets != [] {
      var earlier, last := assets[..|assets| - 1], assets[|assets| - 1];
      assert assets == earlier + [last];
      CandidateCount(score, earlier, s, a);
    }
  }

  /** `a` is listed once and every other listed asset scores strictly less, or not at all. */
  predicate StrictBest(score: Scoring, assets: multiset<ReleaseAsset>, a: ReleaseAsset) {
    && assets[a] == 1
    && score(a).Some?
    && forall b :: b in assets && b != a && score(b).Some? ==> score(b).value < score(a).value
  }

  /** The maximum is attained at least twice, by two assets or by one listed twice. */
  ghost predicate TiedBest(score: Scoring, assets: multiset<ReleaseAsset>) {
    exists a, b ::
      && a in assets && b in assets && (a != b || assets[a] >= 2)
      && score(a).Some? && score(b) == score(a)
      && forall c :: c in assets && score(c).Some? ==> score(c).value <= score(a).value
  }

  ghost predicate NoneScored(score: Scoring, assets: multiset<ReleaseAsset>) {
    forall a :: a in assets ==> score(a).None?
  }

  lemma SortedHeadIsBest(score: Scoring, assets: seq<ReleaseAsset>, b: ReleaseAsset)
    requires b in multiset(assets) && score(b).Some?
    ensures var s := SortDescending(Candidates(score, assets));
            && s != [] && score(b).value <= s[0].0
            && exists i :: 0 <= i < |s| && s[i] == (score(b).value, b)
  {
    var s := SortDescending(Candidates(score, assets));
    CandidateCount(score, assets, score(b).value, b);
    assert (score(b).value, b) in multiset(s);
    var i :| 0 <= i < |s| && s[i] == (score(b).value, b);
  }

  lemma SortedEntriesAreScored(score: Scoring, assets: seq<ReleaseAsset>, i: nat)
    requires i < |SortDescending(Candidates(score, assets))|
    ensures var c := SortDescending(Candidates(score, assets))[i];
            score(c.1) == Some(c.0) && c.1 in multiset(assets)
  {
    var s := SortDescending(Candidates(score, assets));
    assert s[i] in multiset(s);
    CandidateCount(score, assets, s[i].0, s[i].1);
  }

  lemma HeadIsUnique(s: seq<Candidate>)
    requires Descending(s) && s != [] && (|s| == 1 || s[0].0 != s[1].0)
    ensures multiset(s)[s[0]] == 1
    ensures forall i :: 1 <= i < |s| ==> s[i].0 < s[0].0
  {
    assert s == [s[0]] + s[1..];
    assert s[0] !in s[1..];
  }

  lemma WinnerIsStrictBest(score: Scoring, assets: seq<ReleaseAsset>)
    requires Select(score, assets).Ok?
    ensures StrictBest(score, multiset(assets), Select(score, assets).value)
  {
    var s := SortDescending(Candidates(score, assets));
    var a := s[0].1;
    HeadIsUnique(s);
    SortedEntriesAreScored(score, assets, 0);
    CandidateCount(score, assets, s[0].0, a);
    forall b | b in multiset(assets) && b != a && score(b).Some? ensures score(b).value < score(a).value {
      SortedHeadIsBest(score, assets, b);
      var i :| 0 <= i < |s| && s[i] == (score(b).value, b);
    }
  }

  lemma TwoEqualHeads(s: seq<Candidate>)
    requires |s| >= 2 && s[0] == s[1]
    ensures multiset(s)[s[0]] >= 2
  {
    assert s == [s[0]] + ([s[1]] + s[2..]);
  }

  lemma AmbiguityIsTie(score: Scoring, assets: seq<ReleaseAsset>)
    requires Select(score, assets).Err? && Select(score, assets).error.Ambiguous?
    ensures TiedBest(score, multiset(assets))
  {
    var s := SortDescending(Candidates(score, assets));
    var a, b := s[0].1, s[1].1;
    SortedEntriesAreScored(score, assets, 0);
    SortedEntriesAreScored(score, assets, 1);
    if a == b {
      TwoEqualHeads(s);
      CandidateCount(score, assets, s[0].0, a);
    }
    TieWitness(score, assets, a, b);
  }

  lemma TieWitness(score: Scoring, assets: seq<ReleaseAsset>, a: ReleaseAsset, b: ReleaseAsset)
    requires a in multiset(assets) && b in multiset(assets) && (a != b || multiset(assets)[a] >= 2)
    requires score(a).Some? && score(b) == score(a)
    requires var s := SortDescending(Candidates(score, assets)); s != [] && s[0].0 == score(a).value
    ensures TiedBest(score, multiset(assets))
  {
    forall c | c in multiset(assets) && score(c).Some? ensures score(c).value <= score(a).value {
      SortedHeadIsBest(score, assets, c);
    }
  }

  lemma EmptyMeansNoneScored(score: Scoring, assets: seq<ReleaseAsset>)
    requires Select(score, assets) == Err(NoAsset)
    ensures NoneScored(score, multiset(assets))
  {
    forall a | a in multiset(assets) ensures score(a).None? {
      if score(a).Some? {
        SortedHeadIsBest(score, assets, a);
      }
    }
  }

  /** A strict best, a tie for best and the absence of scores exclude each other. */
  lemma OutcomesExclude(score: Scoring, assets: multiset<ReleaseAsset>, a: ReleaseAsset)
    ensures !(StrictBest(score, assets, a) && TiedBest(score, assets))
    ensures !(StrictBest(score, assets, a) && NoneScored(score, assets))
    ensures !(TiedBest(score, assets) && NoneScored(score, assets))
    ensures forall b :: StrictBest(score, assets, a) && StrictBest(score, assets, b) ==> a == b
  {
  }

  /** Selection returns the strict best, reports ambiguity exactly on a tie, and absence exactly when nothing scores. */
  lemma SelectDecides(score: Scoring, assets: seq<ReleaseAsset>)
    ensures forall a :: Select(score, assets) == Ok(a) <==> StrictBest(score, multiset(assets), a)
    ensures (Select(score, assets).Err? && Select(score, assets).error.Ambiguous?) <==> TiedBest(score, multiset(assets))
    ensures Select(score, assets) == Err(NoAsset) <==> NoneScored(score, multiset(assets))
  {
    var r := Select(score, assets);
    var m := multiset(assets);
    if r.Ok? {
      WinnerIsStrictBest(score, assets);
    } else if r.error.Ambiguous? {
      AmbiguityIsTie(score, assets);
    } else {
      EmptyMeansNoneScored(score, assets);
    }
    forall a ensures r == Ok(a) <==> StrictBest(score, m, a) {
      OutcomesExclude(score, m, a);
      if r.Ok? {
        OutcomesExclude(score, m, r.value);
      }
    }
    if r.Ok? {
      OutcomesExclude(score, m, r.value);
    }
    assert !(TiedBest(score, m) && NoneScored(score, m));
  }

  predicate SameSelection(r: Result<ReleaseAsset, SelectError>, s: Result<ReleaseAsset, SelectError>) {
    match (r, s)
    case (Ok(a), Ok(b)) => a == b
    case (Err(e), Err(f)) => e.Ambiguous? <==> f.Ambiguous?
    case _ => false
  }

  lemma WinnerIgnoresOrder(score: Scoring, assets: seq<ReleaseAsset>, permuted: seq<ReleaseAsset>)
    requires multiset(assets) == multiset(permuted) && Select(score, assets).Ok?
    ensures Select(score, permuted) == Select(score, assets)
  {
    var a := Select(score, assets).value;
    WinnerIsStrictBest(score, assets);
    SelectDecides(score, permuted);
    assert StrictBest(score, multiset(permuted), a);
  }

  lemma TieIgnoresOrder(score: Scoring, assets: seq<ReleaseAsset>, permuted: seq<ReleaseAsset>)
    requires multiset(assets) == multiset(permuted)
    requires Select(score, assets).Err? && Select(score, assets).error.Ambiguous?
    ensures Select(score, permuted).Err? && Select(score, permuted).error.Ambiguous?
  {
    AmbiguityIsTie(score, assets);
    SelectDecides(score, permuted);
  }

  /** The order in which a release lists its assets does not matter. */
  lemma SelectIgnoresOrder(score: Scoring, assets: seq<ReleaseAsset>, permuted: seq<ReleaseAsset>)
    requires multiset(assets) == multiset(permuted)
    ensures SameSelection(Select(score, assets), Select(score, permuted))
  {
    var r, s := Select(score, assets), Select(score, permuted);
    if r.Ok? {
      WinnerIgnoresOrder(score, assets, permuted);
    } else if s.Ok? {
      WinnerIgnoresOrder(score, permuted, assets);
    } else if r.error.Ambiguous? {
      TieIgnoresOrder(score, assets, permuted);
    } else if s.error.Ambiguous? {
      TieIgnoresOrder(score, permuted, assets);
    }
  }
}
