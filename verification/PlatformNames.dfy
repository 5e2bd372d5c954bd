/**
 When self_update.rs takes an asset built for another platform for its own.

 The scorer looks for needles anywhere in the name, so whether a foreign asset is refused depends on
 which spellings contain which needles. A name is taken apart into a spelling and what stands before and
 after it; `SpelledOnce` says that a needle occurs inside the spelling or not at all.
 */
module PlatformNames {
  import opened Prelude
  import opened Text
  import opened Assets

  // ----- The needles, as tables -----

  function ArchNeedles(arch: string): seq<string> {
    (if arch == "x86_64" then ["x86-64", "x86_64", "amd64"]
     else if arch == "aarch64" then ["aarch64", "arm64"]
     else if arch == "x86" then ["i686", "x86"]
     else []) + [arch]
  }

  function OsNeedles(os: string): seq<string> {
    if os == "macos" then ["macos", "darwin", "apple-darwin"]
    else if os == "linux" then ["linux", "unknown-linux"]
    else if os == "windows" then ["windows", "pc-windows", "win64"]
    else []
  }

  lemma ArchIsTable(arch: string, name: string)
    ensures MatchesArch(arch, name) <==> ContainsAny(name, ArchNeedles(arch))
  {
  }

  lemma OsIsTable(os: string, name: string)
    ensures MatchesOs(os, name) <==> ContainsAny(name, OsNeedles(os))
  {
  }

  // ----- A name that mentions the platform once -----

  /** Wherever the needle occurs in the name, it lies inside the spelling. */
  predicate OccursOnlyWithin(needle: string, before: string, spelling: string, after: string) {
    var name := before + spelling + after;
    forall i :: 0 <= i <= |name| && OccursAt(name, needle, i) ==> |before| <= i && i + |needle| <= |before| + |spelling|
  }

  predicate SpelledOnce(needles: seq<string>, before: string, spelling: string, after: string) {
    forall needle :: needle in needles ==> OccursOnlyWithin(needle, before, spelling, after)
  }

  lemma InsideSpelling(needle: string, before: string, spelling: string, after: string, i: nat)
    requires i + |needle| <= |spelling|
    ensures OccursAt(before + spelling + after, needle, |before| + i) <==> OccursAt(spelling, needle, i)
  {
    var name := before + spelling + after;
    assert name[|before| + i..|before| + i + |needle|] == spelling[i..i + |needle|];
  }

  lemma WithinSpelling(needle: string, before: string, spelling: string, after: string)
    requires OccursOnlyWithin(needle, before, spelling, after)
    ensures Contains(before + spelling + after, needle) <==> Contains(spelling, needle)
  {
    var name := before + spelling + after;
    if i :| 0 <= i <= |name| && OccursAt(name, needle, i) {
      InsideSpelling(needle, before, spelling, after, i - |before|);
      assert OccursAt(spelling, needle, i - |before|);
    }
    if i :| 0 <= i <= |spelling| && OccursAt(spelling, needle, i) {
      InsideSpelling(needle, before, spelling, after, i);
      assert OccursAt(name, needle, |before| + i);
    }
  }

  lemma SpellingDecides(needles: seq<string>, before: string, spelling: string, after: string)
    requires SpelledOnce(needles, before, spelling, after)
    ensures ContainsAny(before + spelling + after, needles) <==> ContainsAny(spelling, needles)
  {
    forall needle | needle in needles
      ensures Contains(before + spelling + after, needle) <==> Contains(spelling, needle)
    {
      WithinSpelling(needle, before, spelling, after);
    }
  }

  /** The host takes the name for its own exactly when one of its needles lies inside the spelling. */
  lemma MatchIffNeedleInSpelling(host: Platform, before: string, spelling: string, after: string)
    ensures SpelledOnce(ArchNeedles(host.arch), before, spelling, after) ==>
              (MatchesArch(host.arch, before + spelling + after) <==> ContainsAny(spelling, ArchNeedles(host.arch)))
    ensures SpelledOnce(OsNeedles(host.os), before, spelling, after) ==>
              (MatchesOs(host.os, before + spelling + after) <==> ContainsAny(spelling, OsNeedles(host.os)))
  {
    ArchIsTable(host.arch, before + spelling + after);
    OsIsTable(host.os, before + spelling + after);
    if SpelledOnce(ArchNeedles(host.arch), before, spelling, after) {
      SpellingDecides(ArchNeedles(host.arch), before, spelling, after);
    }
    if SpelledOnce(OsNeedles(host.os), before, spelling, after) {
      SpellingDecides(OsNeedles(host.os), before, spelling, after);
    }
  }

  // ----- Foreign assets -----

  /** How release assets spell an architecture, with `_` already replaced. */
  function ArchSpellings(arch: string): seq<string> {
    if arch == "x86_64" then ["x86-64", "amd64"]
    else if arch == "aarch64" then ["aarch64", "arm64"]
    else if arch == "x86" then ["i686", "x86"]
    else [Dashed(arch)]
  }

  function OsSpellings(os: string): seq<string> {
    if os == "macos" then ["macos", "darwin", "apple-darwin", "darwin64"]
    else if os == "linux" then ["linux", "unknown-linux"]
    else if os == "windows" then ["windows", "pc-windows", "win64"]
    else [Dashed(os)]
  }

  /** Some spelling of the one contains a needle of the other. */
  predicate Confusable(needles: seq<string>, spellings: seq<string>) {
    exists spelling :: spelling in spellings && ContainsAny(spelling, needles)
  }

  /** No name that spells the foreign architecture, and the host's at most inside that, passes for the host's. */
  ghost predicate RefusesArch(host: string, foreign: string) {
    forall before, spelling, after ::
      spelling in ArchSpellings(foreign) && SpelledOnce(ArchNeedles(host), before, spelling, after) ==>
      !MatchesArch(host, before + spelling + after)
  }

  ghost predicate RefusesOs(host: string, foreign: string) {
    forall before, spelling, after ::
      spelling in OsSpellings(foreign) && SpelledOnce(OsNeedles(host), before, spelling, after) ==>
      !MatchesOs(host, before + spelling + after)
  }

  /** For any two architectures: foreign names are refused exactly when no needle of the host lies inside a foreign spelling. */
  lemma RefusesArchIff(host: string, foreign: string)
    ensures RefusesArch(host, foreign) <==> !Confusable(ArchNeedles(host), ArchSpellings(foreign))
  {
    var needles, spellings := ArchNeedles(host), ArchSpellings(foreign);
    if spelling :| spelling in spellings && ContainsAny(spelling, needles) {
      assert SpelledOnce(needles, "", spelling, "") && "" + spelling + "" == spelling;
      ArchIsTable(host, spelling);
      assert MatchesArch(host, "" + spelling + "");
    } else {
      forall before, spelling, after | spelling in spellings && SpelledOnce(needles, before, spelling, after)
        ensures !MatchesArch(host, before + spelling + after)
      {
        ArchIsTable(host, before + spelling + after);
        SpellingDecides(needles, before, spelling, after);
      }
    }
  }

  /** The same for operating systems. */
  lemma RefusesOsIff(host: string, foreign: string)
    ensures RefusesOs(host, foreign) <==> !Confusable(OsNeedles(host), OsSpellings(foreign))
  {
    var needles, spellings := OsNeedles(host), OsSpellings(foreign);
    if spelling :| spelling in spellings && ContainsAny(spelling, needles) {
      assert SpelledOnce(needles, "", spelling, "") && "" + spelling + "" == spelling;
      OsIsTable(host, spelling);
      assert MatchesOs(host, "" + spelling + "");
    } else {
      forall before, spelling, after | spelling in spellings && SpelledOnce(needles, before, spelling, after)
        ensures !MatchesOs(host, before + spelling + after)
      {
        OsIsTable(host, before + spelling + after);
        SpellingDecides(needles, before, spelling, after);
      }
    }
  }

  /**
   An asset that fits another architecture scores the same here if a needle of this host lies inside the
   spelling it carries, and is refused otherwise.
   */
  lemma ForeignAssetIsScoredIff(binary: string, os: string, host: string, foreign: string, asset: ReleaseAsset,
                                before: string, spelling: string, after: string)
    requires ScoreAsset(binary, Platform(os, foreign), asset).Some?
    requires Dashed(ToAsciiLower(asset.name)) == before + spelling + after
    requires SpelledOnce(ArchNeedles(host), before, spelling, after)
    ensures ScoreAsset(binary, Platform(os, host), asset)
            == if ContainsAny(spelling, ArchNeedles(host)) then ScoreAsset(binary, Platform(os, foreign), asset) else None
  {
    MatchIffNeedleInSpelling(Platform(os, host), before, spelling, after);
  }

  lemma ForeignOsAssetIsScoredIff(binary: string, arch: string, host: string, foreign: string, asset: ReleaseAsset,
                                  before: string, spelling: string, after: string)
    requires ScoreAsset(binary, Platform(foreign, arch), asset).Some?
    requires Dashed(ToAsciiLower(asset.name)) == before + spelling + after
    requires SpelledOnce(OsNeedles(host), before, spelling, after)
    ensures ScoreAsset(binary, Platform(host, arch), asset)
            == if ContainsAny(spelling, OsNeedles(host)) then ScoreAsset(binary, Platform(foreign, arch), asset) else None
  {
    MatchIffNeedleInSpelling(Platform(host, arch), before, spelling, after);
  }

  // ----- Which pairs are confused -----

  lemma MissingCharacter(s: string, needle: string, k: nat)
    requires k < |needle| && needle[k] !in s
    ensures !Contains(s, needle)
  {
  }

  lemma TooLong(s: string, needle: string)
    requires |s| < |needle|
    ensures !Contains(s, needle)
  {
  }

  lemma ContainsSlice(s: string, from: nat, to: nat)
    requires from <= to <= |s|
    ensures Contains(s, s[from..to])
  {
    assert OccursAt(s, s[from..to], from);
  }

  const ARCHES: seq<string> := ["x86_64", "aarch64", "x86", "arm"]
  const OSES: seq<string> := ["macos", "linux", "windows"]

  lemma X8664Needles(s: string)
    requires '_' !in s
    ensures ContainsAny(s, ArchNeedles("x86_64")) <==> Contains(s, "x86-64") || Contains(s, "amd64")
  {
    var needles := ArchNeedles("x86_64");
    assert needles == ["x86-64", "x86_64", "amd64", "x86_64"];
    MissingCharacter(s, "x86_64", 3);
    assert needles[0] == "x86-64" && needles[2] == "amd64";
  }

  /** Which of x86_64, aarch64, x86 and arm a name spelled `s` passes for. */
  function Passes(s: string): (bool, bool, bool, bool) {
    (ContainsAny(s, ArchNeedles("x86_64")), ContainsAny(s, ArchNeedles("aarch64")),
     ContainsAny(s, ArchNeedles("x86")), ContainsAny(s, ArchNeedles("arm")))
  }

  lemma AllNeedles(s: string)
    requires '_' !in s
    ensures Passes(s) == (Contains(s, "x86-64") || Contains(s, "amd64"), Contains(s, "aarch64") || Contains(s, "arm64"),
                          Contains(s, "i686") || Contains(s, "x86"), Contains(s, "arm"))
  {
    X8664Needles(s);
    var aarch64, x86, arm := ArchNeedles("aarch64"), ArchNeedles("x86"), ArchNeedles("arm");
    assert aarch64 == ["aarch64", "arm64", "aarch64"] && aarch64[0] == "aarch64" && aarch64[1] == "arm64";
    assert x86 == ["i686", "x86", "x86"] && x86[0] == "i686" && x86[1] == "x86";
    assert arm == ["arm"] && arm[0] == "arm";
  }

  lemma WithoutX(s: string)
    requires 'x' !in s
    ensures (Contains(s, "x86-64"), Contains(s, "x86")) == (false, false)
  {
    MissingCharacter(s, "x86-64", 0);
    MissingCharacter(s, "x86", 0);
  }

  lemma WithoutM(s: string)
    requires 'm' !in s
    ensures (Contains(s, "amd64"), Contains(s, "arm64"), Contains(s, "arm")) == (false, false, false)
  {
    MissingCharacter(s, "amd64", 1);
    MissingCharacter(s, "arm64", 2);
    MissingCharacter(s, "arm", 2);
  }

  lemma WithoutR(s: string)
    requires 'r' !in s
    ensures (Contains(s, "aarch64"), Contains(s, "arm64"), Contains(s, "arm")) == (false, false, false)
  {
    MissingCharacter(s, "aarch64", 2);
    MissingCharacter(s, "arm64", 1);
    MissingCharacter(s, "arm", 1);
  }

  lemma WithoutI(s: string)
    requires 'i' !in s
    ensures !Contains(s, "i686")
  {
    MissingCharacter(s, "i686", 0);
  }

  lemma WithoutD(s: string)
    requires 'd' !in s
    ensures !Contains(s, "amd64")
  {
    MissingCharacter(s, "amd64", 2);
  }

  lemma SpelledX8664()
    ensures Passes("x86-64") == (true, false, true, false)
  {
    var s := "x86-64";
    AllNeedles(s);
    assert s[0..6] == "x86-64" && s[0..3] == "x86";
    ContainsSlice(s, 0, 6);
    ContainsSlice(s, 0, 3);
    WithoutR(s);
  }

  lemma SpelledAmd64()
    ensures Passes("amd64") == (true, false, false, false)
  {
    var s := "amd64";
    AllNeedles(s);
    assert s[0..5] == "amd64";
    ContainsSlice(s, 0, 5);
    WithoutX(s);
    WithoutR(s);
    WithoutI(s);
  }

  lemma Aarch64Characters()
    ensures 'x' !in "aarch64" && 'm' !in "aarch64" && 'i' !in "aarch64" && '_' !in "aarch64"
  {
  }

  lemma SpelledAarch64()
    ensures Passes("aarch64") == (false, true, false, false)
  {
    var s := "aarch64";
    Aarch64Characters();
    AllNeedles(s);
    assert s[0..7] == "aarch64";
    ContainsSlice(s, 0, 7);
    WithoutX(s);
    WithoutM(s);
    WithoutI(s);
  }

  lemma SpelledArm64()
    ensures Passes("arm64") == (false, true, false, true)
  {
    var s := "arm64";
    AllNeedles(s);
    assert s[0..5] == "arm64" && s[0..3] == "arm";
    ContainsSlice(s, 0, 5);
    ContainsSlice(s, 0, 3);
    WithoutX(s);
    WithoutD(s);
    WithoutI(s);
  }

  lemma SpelledI686()
    ensures Passes("i686") == (false, false, true, false)
  {
    var s := "i686";
    AllNeedles(s);
    assert s[0..4] == "i686";
    ContainsSlice(s, 0, 4);
    WithoutX(s);
    WithoutM(s);
    WithoutR(s);
  }

  lemma SpelledX86()
    ensures Passes("x86") == (false, false, true, false)
  {
    var s := "x86";
    AllNeedles(s);
    assert s[0..3] == "x86";
    ContainsSlice(s, 0, 3);
    TooLong(s, "x86-64");
    WithoutM(s);
    WithoutR(s);
  }

  lemma SpelledArm()
    ensures Passes("arm") == (false, false, false, true)
  {
    var s := "arm";
    AllNeedles(s);
    assert s[0..3] == "arm";
    ContainsSlice(s, 0, 3);
    TooLong(s, "aarch64");
    TooLong(s, "arm64");
    WithoutX(s);
    WithoutD(s);
    WithoutI(s);
  }

  lemma ConfusableWithTwo(needles: seq<string>, first: string, second: string)
    ensures Confusable(needles, [first, second]) <==> ContainsAny(first, needles) || ContainsAny(second, needles)
  {
    assert [first, second][0] == first && [first, second][1] == second;
  }

  /** Which of the four hosts take the foreign architecture for their own. */
  function TakenBy(foreign: string): (bool, bool, bool, bool) {
    var spellings := ArchSpellings(foreign);
    (Confusable(ArchNeedles("x86_64"), spellings), Confusable(ArchNeedles("aarch64"), spellings),
     Confusable(ArchNeedles("x86"), spellings), Confusable(ArchNeedles("arm"), spellings))
  }

  lemma TakenByPassing(foreign: string, first: string, second: string)
    requires forall spelling :: spelling in ArchSpellings(foreign) <==> spelling in [first, second]
    ensures var (p, q) := (Passes(first), Passes(second));
            TakenBy(foreign) == (p.0 || q.0, p.1 || q.1, p.2 || q.2, p.3 || q.3)
  {
    ConfusableWithTwo(ArchNeedles("x86_64"), first, second);
    ConfusableWithTwo(ArchNeedles("aarch64"), first, second);
    ConfusableWithTwo(ArchNeedles("x86"), first, second);
    ConfusableWithTwo(ArchNeedles("arm"), first, second);
  }

  lemma X8664IsTakenBy()
    ensures TakenBy("x86_64") == (true, false, true, false)
  {
    SpelledX8664();
    SpelledAmd64();
    TakenByPassing("x86_64", "x86-64", "amd64");
  }

  lemma Aarch64IsTakenBy()
    ensures TakenBy("aarch64") == (false, true, false, true)
  {
    SpelledAarch64();
    SpelledArm64();
    TakenByPassing("aarch64", "aarch64", "arm64");
  }

  lemma X86IsTakenBy()
    ensures TakenBy("x86") == (false, false, true, false)
  {
    SpelledI686();
    SpelledX86();
    TakenByPassing("x86", "i686", "x86");
  }

  lemma ArmIsTakenBy()
    ensures TakenBy("arm") == (false, false, false, true)
  {
    SpelledArm();
    assert Dashed("arm") == "arm";
    TakenByPassing("arm", "arm", "arm");
  }

  /** Among the architectures the table names and `arm`, exactly two foreign pairs are confused. */
  lemma ConfusedArches(host: string, foreign: string)
    requires host in ARCHES && foreign in ARCHES
    ensures RefusesArch(host, foreign)
            <==> host != foreign && (host, foreign) != ("x86", "x86_64") && (host, foreign) != ("arm", "aarch64")
  {
    RefusesArchIff(host, foreign);
    if foreign == "x86_64" {
      X8664IsTakenBy();
    } else if foreign == "aarch64" {
      Aarch64IsTakenBy();
    } else if foreign == "x86" {
      X86IsTakenBy();
    } else {
      ArmIsTakenBy();
    }
  }

  /** Which of macOS, Linux and Windows a spelling passes for. */
  function PassesOs(s: string): (bool, bool, bool) {
    (ContainsAny(s, OsNeedles("macos")), ContainsAny(s, OsNeedles("linux")), ContainsAny(s, OsNeedles("windows")))
  }

  lemma NotMacos(s: string)
    requires 'm' !in s || 'c' !in s
    requires 'r' !in s || 'd' !in s
    ensures !ContainsAny(s, OsNeedles("macos"))
  {
    if 'm' !in s {
      MissingCharacter(s, "macos", 0);
    } else {
      MissingCharacter(s, "macos", 2);
    }
    if 'r' !in s {
      MissingCharacter(s, "darwin", 2);
      MissingCharacter(s, "apple-darwin", 8);
    } else {
      MissingCharacter(s, "darwin", 0);
      MissingCharacter(s, "apple-darwin", 6);
    }
  }

  lemma NotLinux(s: string)
    requires 'u' !in s
    ensures !ContainsAny(s, OsNeedles("linux"))
  {
    MissingCharacter(s, "linux", 3);
    MissingCharacter(s, "unknown-linux", 0);
  }

  lemma NotWindows(s: string)
    requires 's' !in s || 'd' !in s
    requires '6' !in s
    ensures !ContainsAny(s, OsNeedles("windows"))
  {
    if 's' !in s {
      MissingCharacter(s, "windows", 6);
      MissingCharacter(s, "pc-windows", 9);
    } else {
      MissingCharacter(s, "windows", 3);
      MissingCharacter(s, "pc-windows", 6);
    }
    MissingCharacter(s, "win64", 3);
  }

  lemma IsMacos(s: string)
    requires s in ["macos", "darwin", "apple-darwin"]
    ensures ContainsAny(s, OsNeedles("macos"))
  {
    assert s[0..|s|] == s;
    ContainsSlice(s, 0, |s|);
  }

  lemma IsLinux(s: string)
    requires s in ["linux", "unknown-linux"]
    ensures ContainsAny(s, OsNeedles("linux"))
  {
    assert s[0..|s|] == s;
    ContainsSlice(s, 0, |s|);
  }

  lemma IsWindows(s: string)
    requires s in ["windows", "pc-windows", "win64"]
    ensures ContainsAny(s, OsNeedles("windows"))
  {
    assert s[0..|s|] == s;
    ContainsSlice(s, 0, |s|);
  }

  lemma MacosCharacters(s: string)
    requires s in ["macos", "darwin", "apple-darwin"]
    ensures 'u' !in s && '6' !in s && ('s' !in s || 'd' !in s)
  {
  }

  lemma MacosSpellings(s: string)
    requires s in ["macos", "darwin", "apple-darwin"]
    ensures PassesOs(s) == (true, false, false)
  {
    IsMacos(s);
    MacosCharacters(s);
    NotLinux(s);
    NotWindows(s);
  }

  /** The `win64` needle lies inside `darwin64`. */
  lemma Darwin64Spelling()
    ensures PassesOs("darwin64") == (true, false, true)
  {
    var s := "darwin64";
    assert s[0..6] == "darwin" && s[3..8] == "win64";
    ContainsSlice(s, 0, 6);
    ContainsSlice(s, 3, 8);
    var macos, windows := OsNeedles("macos"), OsNeedles("windows");
    assert macos[1] == "darwin" && windows[2] == "win64";
    NotLinux(s);
  }

  lemma LinuxSpellings(s: string)
    requires s in ["linux", "unknown-linux"]
    ensures PassesOs(s) == (false, true, false)
  {
    IsLinux(s);
    NotMacos(s);
    NotWindows(s);
  }

  lemma WindowsCharacters(s: string)
    requires s in ["windows", "pc-windows", "win64"]
    ensures 'm' !in s && 'r' !in s && 'u' !in s
  {
  }

  lemma WindowsSpellings(s: string)
    requires s in ["windows", "pc-windows", "win64"]
    ensures PassesOs(s) == (false, false, true)
  {
    IsWindows(s);
    WindowsCharacters(s);
    NotMacos(s);
    NotLinux(s);
  }

  function TakenByOs(foreign: string): (bool, bool, bool) {
    var spellings := OsSpellings(foreign);
    (Confusable(OsNeedles("macos"), spellings), Confusable(OsNeedles("linux"), spellings), Confusable(OsNeedles("windows"), spellings))
  }

  lemma MacosIsTakenBy()
    ensures TakenByOs("macos") == (true, false, true)
  {
    Darwin64Spelling();
    var spellings := OsSpellings("macos");
    assert spellings[3] == "darwin64";
    forall s | s in spellings ensures s == "darwin64" || PassesOs(s) == (true, false, false) {
      if s != "darwin64" {
        MacosSpellings(s);
      }
    }
  }

  lemma LinuxIsTakenBy()
    ensures TakenByOs("linux") == (false, true, false)
  {
    var spellings := OsSpellings("linux");
    forall s | s in spellings ensures PassesOs(s) == (false, true, false) {
      LinuxSpellings(s);
    }
    assert spellings[0] in spellings;
  }

  lemma WindowsIsTakenBy()
    ensures TakenByOs("windows") == (false, false, true)
  {
    var spellings := OsSpellings("windows");
    forall s | s in spellings ensures PassesOs(s) == (false, false, true) {
      WindowsSpellings(s);
    }
    assert spellings[0] in spellings;
  }

  /** Among the systems the table names, only a macOS asset spelled `darwin64` passes for another: for Windows. */
  lemma ConfusedOses(host: string, foreign: string)
    requires host in OSES && foreign in OSES
    ensures RefusesOs(host, foreign) <==> host != foreign && (host, foreign) != ("windows", "macos")
  {
    RefusesOsIff(host, foreign);
    if foreign == "macos" {
      MacosIsTakenBy();
    } else if foreign == "linux" {
      LinuxIsTakenBy();
    } else {
      WindowsIsTakenBy();
    }
  }

  // ----- Foreign assets that are selected -----

  lemma LoneAssetIsSelected(score: Scoring, asset: ReleaseAsset)
    requires score(asset).Some?
    ensures Select(score, [asset]) == Ok(asset)
  {
    var m := multiset([asset]);
    SelectDecides(score, [asset]);
    assert m == multiset{asset};
    assert StrictBest(score, m, asset);
  }

  /** A name that is no checksum file's, for want of the characters those need. */
  lemma NoChecksumName(name: string)
    requires name != [] && name[|name| - 1] == '4' && 's' !in name && 'c' !in name
    ensures !IsChecksumAsset(name)
  {
    MissingCharacter(name, "checksum", 0);
    MissingCharacter(name, "sha256sum", 0);
    if EndsWith(name, ".sha256") {
      LastCharacter(name, ".sha256");
    } else if EndsWith(name, ".sha256sum") {
      LastCharacter(name, ".sha256sum");
    } else if EndsWith(name, ".sha256.txt") {
      LastCharacter(name, ".sha256.txt");
    }
  }

  /** A lower-case name none of whose characters make it a checksum file's. */
  predicate IsToolName(name: string) {
    && (forall i :: 0 <= i < |name| ==> !('A' <= name[i] <= 'Z') && name[i] != 's' && name[i] != 'c')
    && |name| >= 4 && name[..4] == "tool" && name[|name| - 1] == '4'
  }

  lemma FittingAssetIsSelected(platform: Platform, asset: ReleaseAsset)
    requires IsToolName(asset.name)
    requires MatchesOs(platform.os, Dashed(asset.name)) && MatchesArch(platform.arch, Dashed(asset.name))
    ensures Select(Scorer("tool", platform), [asset]) == Ok(asset)
  {
    ToolNameFits(asset.name);
    LoneAssetIsSelected(Scorer("tool", platform), asset);
  }

  lemma ToolNameFits(name: string)
    requires IsToolName(name)
    ensures ToAsciiLower(name) == name && !IsChecksumAsset(name)
    ensures Contains(Dashed(name), Dashed(ToAsciiLower("tool")))
  {
    assert ToAsciiLower(name) == name;
    NoChecksumName(name);
    assert Dashed(ToAsciiLower("tool")) == "tool" == Dashed(name)[0..4];
    ContainsSlice(Dashed(name), 0, 4);
  }

  /** The needle at `from..to` of the normalised name is one the host looks for. */
  lemma FoundAt(needles: seq<string>, name: string, from: nat, to: nat, k: nat)
    requires k < |needles| && from <= to <= |name| && needles[k] == name[from..to]
    ensures ContainsAny(name, needles)
  {
    ContainsSlice(name, from, to);
  }

  lemma X8664Name()
    ensures IsToolName("tool-linux-x86_64")
    ensures Dashed("tool-linux-x86_64") == "tool-linux-x86-64"
  {
  }

  lemma X8664NameFitsX86()
    ensures (MatchesOs("linux", "tool-linux-x86-64"), MatchesArch("x86", "tool-linux-x86-64")) == (true, true)
  {
    var name := "tool-linux-x86-64";
    assert name[5..10] == "linux" && name[11..14] == "x86";
    FoundAt(OsNeedles("linux"), name, 5, 10, 0);
    FoundAt(ArchNeedles("x86"), name, 11, 14, 1);
    OsIsTable("linux", name);
    ArchIsTable("x86", name);
  }

  /** A 32-bit x86 installation selects a release's only Linux asset although it is built for x86-64. */
  lemma X86SelectsX8664(url: string)
    ensures var asset := ReleaseAsset("tool-linux-x86_64", url);
            Select(Scorer("tool", Platform("linux", "x86")), [asset]) == Ok(asset)
  {
    X8664Name();
    X8664NameFitsX86();
    FittingAssetIsSelected(Platform("linux", "x86"), ReleaseAsset("tool-linux-x86_64", url));
  }

  lemma Arm64Name()
    ensures IsToolName("tool-linux-arm64") && Dashed("tool-linux-arm64") == "tool-linux-arm64"
  {
  }

  lemma Arm64NameFitsArm()
    ensures (MatchesOs("linux", "tool-linux-arm64"), MatchesArch("arm", "tool-linux-arm64")) == (true, true)
  {
    var name := "tool-linux-arm64";
    assert name[5..10] == "linux" && name[11..14] == "arm";
    FoundAt(OsNeedles("linux"), name, 5, 10, 0);
    FoundAt(ArchNeedles("arm"), name, 11, 14, 0);
    OsIsTable("linux", name);
    ArchIsTable("arm", name);
  }

  /** A 32-bit ARM installation selects the 64-bit asset. */
  lemma ArmSelectsArm64(url: string)
    ensures var asset := ReleaseAsset("tool-linux-arm64", url);
            Select(Scorer("tool", Platform("linux", "arm")), [asset]) == Ok(asset)
  {
    Arm64Name();
    Arm64NameFitsArm();
    FittingAssetIsSelected(Platform("linux", "arm"), ReleaseAsset("tool-linux-arm64", url));
  }

  lemma Darwin64Name()
    ensures IsToolName("tool-darwin64-amd64") && Dashed("tool-darwin64-amd64") == "tool-darwin64-amd64"
  {
  }

  lemma Darwin64NameFitsWindows()
    ensures (MatchesOs("windows", "tool-darwin64-amd64"), MatchesArch("x86_64", "tool-darwin64-amd64")) == (true, true)
  {
    var name := "tool-darwin64-amd64";
    assert name[8..13] == "win64" && name[14..19] == "amd64";
    FoundAt(OsNeedles("windows"), name, 8, 13, 2);
    FoundAt(ArchNeedles("x86_64"), name, 14, 19, 2);
    OsIsTable("windows", name);
    ArchIsTable("x86_64", name);
  }

  /** A Windows installation selects a macOS asset spelled `darwin64`. */
  lemma WindowsSelectsDarwin64(url: string)
    ensures var asset := ReleaseAsset("tool-darwin64-amd64", url);
            Select(Scorer("tool", Platform("windows", "x86_64")), [asset]) == Ok(asset)
  {
    Darwin64Name();
    Darwin64NameFitsWindows();
    FittingAssetIsSelected(Platform("windows", "x86_64"), ReleaseAsset("tool-darwin64-amd64", url));
  }
}
