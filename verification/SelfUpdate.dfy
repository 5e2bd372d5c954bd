/** The update transaction `execute` of self_update.rs. */
module SelfUpdate {
  // Everything outside the process (the release service, the terminal, the file system, the
  // programs it starts) is an arbitrary `Environment`; what the transaction may change is the
  // `Installation`.

  import opened Prelude
  import opened Text
  import opened Assets
  import opened Checksums
  import opened UpdateArgs
  import Archives
  import FindExecutable

  datatype VerificationPolicy = RequireSha256 | PreferSha256

  datatype Config = Config(binaryName: string, currentVersion: string, policy: VerificationPolicy, allowNoVerify: bool)

  datatype SemVer = SemVer(major: nat, minor: nat, patch: nat, pre: string, build: string)

  type SemVerParser = string -> Option<SemVer>

  /** What running `<path> --version` does; `CannotRun` covers a missing or irregular file too. */
  datatype Run = CannotRun | Exited(success: bool, stdout: string, stderr: string)

  type ArchiveReader = seq<Byte> -> Option<seq<Option<Archives.Entry>>>

  datatype Environment = Environment(
    platform: Platform,
    semver: SemVerParser,
    digest: seq<Byte> -> seq<Byte>,
    release: Option<Release>,               // the requested release, if it resolves
    terminal: bool,                         // stdin and stdout are both terminals
    answer: Option<bool>,                   // the reply to the prompt, if it can be read
    tempDir: bool,
    download: string -> Option<seq<Byte>>,  // by URL, within the size limit
    manifest: string -> Option<string>,     // a checksum file's text, within its limit and valid UTF-8
    hashOpens: bool,                        // the downloaded file can be reopened for hashing
    hashReads: seq<ReadResult>,
    readTar: ArchiveReader,
    readZip: ArchiveReader,
    runCandidate: seq<Byte> -> Run,
    runInstalled: seq<Byte> -> Run,
    currentExe: bool,
    backup: bool,
    replace: bool,                          // an atomic replacement either succeeds or changes nothing
    rollback: bool)

  datatype Outcome =
    | AlreadyCurrent(version: string)
    | CheckOnly(current: string, target: string)
    | DryRun(current: string, target: string)
    | Updated(previous: string, current: string)

  datatype UpdateError =
    | ReleaseUnavailable | Selection(cause: SelectError) | PromptFailed | Cancelled | NoVerifyDisabled
    | TempDirFailed | UnsafeAssetName | DownloadFailed
    | ChecksumMissing | ChecksumUnreadable | ChecksumNotListed | HashFailed | ChecksumMismatch
    | ArchiveUnreadable | Extraction(failure: Archives.ArchiveError)
    | InvalidCandidate | NoCurrentExe | BackupFailed | ReplaceFailed
    | RolledBack | RollbackFailed

  // ----- Versions -----

  function NormalizeVersion(value: string): string {
    var trimmed := Trim(value);
    if "v" <= trimmed then trimmed[1..] else trimmed
  }

  predicate VersionsEqual(semver: SemVerParser, left: string, right: string) {
    if semver(left).Some? && semver(right).Some? then semver(left) == semver(right) else left == right
  }

  /** A tag may carry a leading `v` or not. */
  lemma LeadingVIsIgnored(semver: SemVerParser, version: string)
    requires version != [] && IsTrimmed(version) && version[0] != 'v'
    ensures NormalizeVersion("v" + version) == NormalizeVersion(version) == version
    ensures VersionsEqual(semver, NormalizeVersion("v" + version), NormalizeVersion(version))
  {
    var tagged := "v" + version;
    assert tagged[0] == 'v' && tagged[1..] == version && tagged[|tagged| - 1] == version[|version| - 1];
    assert !IsWhitespace('v');
    TrimmedIsFixed(tagged);
    TrimmedIsFixed(version);
  }

  /** Comparing texts when one is no version still gives an equivalence. */
  lemma VersionsEqualIsEquivalence(semver: SemVerParser, a: string, b: string, c: string)
    ensures VersionsEqual(semver, a, a)
    ensures VersionsEqual(semver, a, b) <==> VersionsEqual(semver, b, a)
    ensures VersionsEqual(semver, a, b) && VersionsEqual(semver, b, c) ==> VersionsEqual(semver, a, c)
  {
  }

  predicate IsVersionChar(c: char) {
    'a' <= c <= 'z' || 'A' <= c <= 'Z' || '0' <= c <= '9' || c == '.' || c == '-' || c == '+'
  }

  function TrimPunctuation(s: string): string
    decreases |s|
  {
    if s == [] then s
    else if !IsVersionChar(s[0]) then TrimPunctuation(s[1..])
    else if !IsVersionChar(s[|s| - 1]) then TrimPunctuation(s[..|s| - 1])
    else s
  }

  function VersionToken(word: string): string {
    var token := TrimPunctuation(word);
    if "v" <= token then token[1..] else token
  }

  /** Some whole word of the output is the expected version; a substring is not enough. */
  predicate VersionOutputMatches(semver: SemVerParser, output: string, expected: string) {
    var wanted := semver(NormalizeVersion(expected));
    wanted.Some? && exists word :: word in Words(output) && semver(VersionToken(word)) == wanted
  }

  lemma {:induction false} WordsSplitAtWhitespace(a: string, space: char, b: string)
    requires IsWhitespace(space)
    ensures Words(a + [space] + b) == Words(a) + Words(b)
    decreases |a|
  {
    var all := a + [space] + b;
    if a == [] {
      assert all[1..] == b;
    } else if IsWhitespace(a[0]) {
      assert all[1..] == a[1..] + [space] + b;
      WordsSplitAtWhitespace(a[1..], space, b);
    } else {
      var n := WordLength(a);
      WordEndsAt(a, [space] + b);
      assert all == a + ([space] + b);
      assert all[..n] == a[..n] && all[n..] == a[n..] + [space] + b;
      WordsSplitAtWhitespace(a[n..], space, b);
    }
  }

  lemma {:induction false} WordEndsAt(a: string, rest: string)
    requires rest != [] && IsWhitespace(rest[0])
    ensures WordLength(a + rest) == WordLength(a)
  {
    if a == [] {
      assert a + rest == rest;
    } else if !IsWhitespace(a[0]) {
      assert (a + rest)[1..] == a[1..] + rest;
      WordEndsAt(a[1..], rest);
    }
  }

  /** The version may be reported on either stream; neither can complete a word of the other. */
  lemma StreamsAreSearchedSeparately(semver: SemVerParser, stdout: string, stderr: string, expected: string)
    ensures VersionOutputMatches(semver, stdout + "\n" + stderr, expected)
            <==> VersionOutputMatches(semver, stdout, expected) || VersionOutputMatches(semver, stderr, expected)
  {
    WordsSplitAtWhitespace(stdout, '\n', stderr);
  }

  predicate IsPunctuation(s: string) {
    forall i :: 0 <= i < |s| ==> !IsVersionChar(s[i])
  }

  lemma {:induction false} PunctuationIsTrimmed(before: string, v: string, after: string)
    requires IsPunctuation(before) && IsPunctuation(after)
    requires v != [] && IsVersionChar(v[0]) && IsVersionChar(v[|v| - 1])
    ensures TrimPunctuation(before + v + after) == v
    decreases |before| + |after|
  {
    var all := before + v + after;
    if before != [] {
      assert all[1..] == before[1..] + v + after;
      PunctuationIsTrimmed(before[1..], v, after);
    } else if after != [] {
      assert all[0] == v[0] && all[|all| - 1] == after[|after| - 1];
      assert all[..|all| - 1] == before + v + after[..|after| - 1];
      PunctuationIsTrimmed(before, v, after[..|after| - 1]);
    } else {
      assert all == v;
    }
  }

  lemma {:induction false} OneWord(word: string)
    requires word != [] && forall i :: 0 <= i < |word| ==> !IsWhitespace(word[i])
    ensures Words(word) == [word]
  {
    WordLengthIs(word, |word|);
    assert word[|word|..] == [] && word[..|word|] == word;
  }

  /**
   A version standing as a word of its own is recognised wherever it stands, with or without a leading
   `v` and with any punctuation around it.
   */
  lemma ReportedVersionIsRecognised(semver: SemVerParser, text: string, before: string, v: string, after: string, more: string, expected: string)
    requires IsPunctuation(before) && IsPunctuation(after)
    requires v != [] && IsVersionChar(v[0]) && IsVersionChar(v[|v| - 1])
    requires forall i :: 0 <= i < |before + v + after| ==> !IsWhitespace((before + v + after)[i])
    requires semver(NormalizeVersion(expected)).Some?
    requires semver(if "v" <= v then v[1..] else v) == semver(NormalizeVersion(expected))
    ensures VersionOutputMatches(semver, text + " " + (before + v + after) + " " + more, expected)
  {
    var word := before + v + after;
    PunctuationIsTrimmed(before, v, after);
    OneWord(word);
    WordsSplitAtWhitespace(text, ' ', word);
    WordsSplitAtWhitespace(text + " " + word, ' ', more);
    assert word in Words(text + " " + word + " " + more);
  }

  predicate IsValid(semver: SemVerParser, run: Run, target: string) {
    run.Exited? && run.success && VersionOutputMatches(semver, run.stdout + "\n" + run.stderr, target)
  }

  // ----- Deciding whether to update -----

  function Current(config: Config): string {
    NormalizeVersion(config.currentVersion)
  }

  function TargetOf(release: Release): string {
    NormalizeVersion(release.tagName)
  }

  predicate IsStale(config: Config, env: Environment) {
    env.release.Some? && !VersionsEqual(env.semver, Current(config), TargetOf(env.release.value))
  }

  predicate Prompts(args: CliArgs, env: Environment) {
    match args.interactive
    case Ask => true
    case DoNotAsk => false
    case Unset => !args.assumeYes && env.terminal
  }

  predicate Agreed(args: CliArgs, env: Environment) {
    Prompts(args, env) ==> env.answer == Some(true)
  }

  predicate Selects(config: Config, env: Environment, asset: ReleaseAsset) {
    env.release.Some? && Select(Scorer(config.binaryName, env.platform), env.release.value.assets) == Ok(asset)
  }

  /** Neither the operator nor the options stop the update. */
  predicate GoesAhead(config: Config, args: CliArgs, env: Environment) {
    Agreed(args, env) && !args.dryRun && (args.noVerify ==> config.allowNoVerify)
  }

  /** The run goes on to fetch `asset`. */
  predicate WantsUpdate(config: Config, args: CliArgs, env: Environment, asset: ReleaseAsset) {
    IsStale(config, env) && !args.check && Selects(config, env, asset) && GoesAhead(config, args, env)
  }

  /** The run stops after showing what it would do. */
  ghost predicate DryRuns(config: Config, args: CliArgs, env: Environment) {
    && IsStale(config, env) && !args.check && args.dryRun && Agreed(args, env)
    && exists asset :: Selects(config, env, asset)
  }

  datatype Plan = Stop(outcome: Outcome) | Fail(error: UpdateError) | Fetch(asset: ReleaseAsset)

  method MakePlan(config: Config, args: CliArgs, env: Environment) returns (plan: Plan)
    ensures forall asset :: plan == Fetch(asset) <==> WantsUpdate(config, args, env, asset)
    ensures plan.Stop? && plan.outcome.AlreadyCurrent? <==> env.release.Some? && !IsStale(config, env)
    ensures plan.Stop? && plan.outcome.CheckOnly? <==> IsStale(config, env) && args.check
    ensures plan.Stop? && plan.outcome.DryRun? <==> DryRuns(config, args, env)
    ensures plan.Stop? ==> !plan.outcome.Updated?
    ensures plan.Fail? ==> !IsLate(plan.error)
    ensures plan == Fail(ReleaseUnavailable) <==> env.release.None?
    ensures plan.Fail? && plan.error.Selection? ==>
              IsStale(config, env) && !args.check
              && Select(Scorer(config.binaryName, env.platform), env.release.value.assets) == Err(plan.error.cause)
  {
    if env.release.None? {
      return Fail(ReleaseUnavailable);
    }
    var release := env.release.value;
    var target := TargetOf(release);
    var current := Current(config);
    if VersionsEqual(env.semver, current, target) {
      return Stop(AlreadyCurrent(target));
    }
    if args.check {
      return Stop(CheckOnly(current, target));
    }
    plan := PlanUpdate(config, args, env);
  }

  /** The plan for an installation already found stale. */
  method PlanUpdate(config: Config, args: CliArgs, env: Environment) returns (plan: Plan)
    requires env.release.Some?
    ensures forall asset :: plan == Fetch(asset) <==> Selects(config, env, asset) && GoesAhead(config, args, env)
    ensures plan.Stop? <==> Agreed(args, env) && args.dryRun && exists asset :: Selects(config, env, asset)
    ensures plan.Stop? ==> plan.outcome == Outcome.DryRun(Current(config), TargetOf(env.release.value))
    ensures plan.Fail? ==> !IsLate(plan.error) && !plan.error.ReleaseUnavailable?
    ensures plan.Fail? && plan.error.Selection? ==>
              Select(Scorer(config.binaryName, env.platform), env.release.value.assets) == Err(plan.error.cause)
  {
    var selected := SelectAsset(config.binaryName, env.platform, env.release.value);
    if selected.Err? {
      return Fail(Selection(selected.error));
    }
    assert Selects(config, env, selected.value);
    plan := PlanFor(config, args, env, selected.value);
  }

  /** What is left to decide once an asset is selected for a stale installation. */
  method PlanFor(config: Config, args: CliArgs, env: Environment, asset: ReleaseAsset) returns (plan: Plan)
    requires env.release.Some?
    ensures plan.Fetch? ==> plan.asset == asset
    ensures plan.Fetch? <==> GoesAhead(config, args, env)
    ensures plan.Stop? <==> Agreed(args, env) && args.dryRun
    ensures var prompts := args.interactive == Ask || (args.interactive == Unset && !args.assumeYes && env.terminal);
            && (plan == Fail(PromptFailed) <==> prompts && env.answer == None)
            && (plan == Fail(Cancelled) <==> prompts && env.answer == Some(false))
            && (plan.Fetch? <==> (prompts ==> env.answer == Some(true)) && !args.dryRun && (args.noVerify ==> config.allowNoVerify))
    ensures plan.Stop? ==> plan.outcome == Outcome.DryRun(Current(config), TargetOf(env.release.value))
    ensures plan.Fail? ==> plan.error in {PromptFailed, Cancelled, NoVerifyDisabled}
  {
    if Prompts(args, env) {
      if env.answer.None? {
        return Fail(PromptFailed);
      }
      if !env.answer.value {
        return Fail(Cancelled);
      }
    }
    if args.dryRun {
      return Stop(Outcome.DryRun(Current(config), TargetOf(env.release.value)));
    }
    if args.noVerify && !config.allowNoVerify {
      return Fail(NoVerifyDisabled);
    }
    plan := Fetch(asset);
  }

  // ----- Fetching and verifying -----

  predicate IsSafeAssetName(name: string) {
    name != "" && name != "." && name != ".." && '/' !in name && '\\' !in name && '\0' !in name
  }

  predicate ChecksumRequired(config: Config, args: CliArgs) {
    args.verifyRequired || config.policy.RequireSha256?
  }

  predicate CanHash(env: Environment, bytes: seq<Byte>) {
    env.hashOpens && ReadsThrough(bytes, env.hashReads)
  }

  /** The published digest matches, or no checksum is published and none is required. */
  predicate ChecksumAccepts(env: Environment, release: Release, asset: ReleaseAsset, bytes: seq<Byte>, required: bool) {
    match FindChecksumAsset(release, asset)
    case None => !required
    case Some(file) =>
      && env.manifest(file.url).Some?
      && FirstChecksum(Lines(env.manifest(file.url).value), asset.name) == Some(HexEncode(env.digest(bytes)))
      && CanHash(env, bytes)
  }

  method VerifyChecksum(env: Environment, release: Release, asset: ReleaseAsset, bytes: seq<Byte>, required: bool)
    returns (failure: Option<UpdateError>)
    ensures failure.None? <==> ChecksumAccepts(env, release, asset, bytes, required)
    ensures failure.Some? ==> failure.value in {ChecksumMissing, ChecksumUnreadable, ChecksumNotListed, HashFailed, ChecksumMismatch}
    ensures failure == Some(ChecksumMissing) <==> required && FindChecksumAsset(release, asset).None?
    ensures failure == Some(ChecksumMismatch) <==>
              exists file, published ::
                && FindChecksumAsset(release, asset) == Some(file) && env.manifest(file.url).Some?
                && FirstChecksum(Lines(env.manifest(file.url).value), asset.name) == Some(published)
                && CanHash(env, bytes) && published != HexEncode(env.digest(bytes))
    ensures failure == Some(HashFailed) ==> !CanHash(env, bytes)
  {
    var file := FindChecksumAsset(release, asset);
    if file.None? {
      return if required then Some(ChecksumMissing) else None;
    }
    var text := env.manifest(file.value.url);
    if text.None? {
      return Some(ChecksumUnreadable);
    }
    var expected := ParseExpectedChecksum(text.value, asset.name);
    if expected.None? {
      return Some(ChecksumNotListed);
    }
    var actual := Sha256File(env.digest, bytes, env.hashOpens, env.hashReads);
    if actual.None? {
      return Some(HashFailed);
    }
    failure := if expected.value != actual.value then Some(ChecksumMismatch) else None;
  }

  function NamesFor(config: Config, env: Environment): Archives.Names {
    Archives.Names(if env.platform.os == "windows" then config.binaryName + ".exe" else config.binaryName, config.binaryName)
  }

  /** How the downloaded file is unpacked, by its lower-cased name. */
  datatype Packaging = TarGz | ZipFile | Plain

  function PackagingOf(name: string): Packaging {
    var lower := ToAsciiLower(name);
    if EndsWith(lower, ".tar.gz") || EndsWith(lower, ".tgz") then TarGz
    else if EndsWith(lower, ".zip") then ZipFile
    else Plain
  }

  /** What selection takes a name for is how the download is unpacked. */
  lemma PackagingIsAsScored(name: string)
    ensures PackagingOf(name).TarGz? <==> PackagingScore(ToAsciiLower(name)) == 8
    ensures PackagingOf(name).ZipFile? <==> PackagingScore(ToAsciiLower(name)) == 7
  {
  }

  /** `candidate` is the executable inside the downloaded file. */
  ghost predicate IsCandidate(config: Config, env: Environment, name: string, bytes: seq<Byte>, candidate: seq<Byte>) {
    match PackagingOf(name)
    case TarGz => env.readTar(bytes).Some? && Archives.Extracts(Archives.Tar, env.readTar(bytes).value, NamesFor(config, env), candidate)
    case ZipFile => env.readZip(bytes).Some? && Archives.Extracts(Archives.Zip, env.readZip(bytes).value, NamesFor(config, env), candidate)
    case Plain => candidate == bytes
  }

  method PrepareCandidate(config: Config, env: Environment, name: string, bytes: seq<Byte>)
    returns (r: Result<seq<Byte>, UpdateError>)
    ensures forall candidate :: r == Ok(candidate) <==> IsCandidate(config, env, name, bytes, candidate)
    ensures r.Err? ==> r.error == ArchiveUnreadable || r.error.Extraction?
  {
    var names := NamesFor(config, env);
    match PackagingOf(name) {
      case TarGz =>
        var entries := env.readTar(bytes);
        if entries.None? {
          return Err(ArchiveUnreadable);
        }
        var extracted := Archives.ExtractTar(entries.value, names);
        r := if extracted.Ok? then Ok(extracted.value) else Err(Extraction(extracted.error));
      case ZipFile =>
        var entries := env.readZip(bytes);
        if entries.None? {
          return Err(ArchiveUnreadable);
        }
        var extracted, files := Archives.ExtractZip(entries.value, names);
        if extracted.Err? {
          return Err(Extraction(extracted.error));
        }
        var found := FindExecutable.Find(FindExecutable.DirectoryOf(files), names);
        FindExecutable.SingleFileIsFound(names, extracted.value);
        assert found == Ok([FindExecutable.Utf8(names.wanted)]);
        r := Ok(files[found.value[0].text]);
      case Plain =>
        r := Ok(bytes);
    }
  }

  /** The run has `candidate` in hand, fetched from `asset` and verified as far as policy demands. */
  ghost predicate Obtains(config: Config, args: CliArgs, env: Environment, asset: ReleaseAsset, candidate: seq<Byte>) {
    && env.release.Some? && env.tempDir && IsSafeAssetName(asset.name)
    && env.download(asset.url).Some?
    && (args.noVerify || ChecksumAccepts(env, env.release.value, asset, env.download(asset.url).value, ChecksumRequired(config, args)))
    && IsCandidate(config, env, asset.name, env.download(asset.url).value, candidate)
  }

  /** No name at all, a directory's own or its parent's, or one with a separator or NUL in it. */
  predicate IsUnsafeText(name: string) {
    name == "" || name == "." || name == ".." || exists i :: 0 <= i < |name| && name[i] as int in {0, 47, 92}
  }

  lemma UnsafeIff(name: string)
    ensures IsSafeAssetName(name) <==> !IsUnsafeText(name)
  {
    assert '\0' as int == 0 && '/' as int == 47 && '\\' as int == 92;
    if i :| 0 <= i < |name| && name[i] as int in {0, 47, 92} {
      assert name[i] in name;
    }
  }

  method ObtainCandidate(config: Config, args: CliArgs, env: Environment, asset: ReleaseAsset)
    returns (r: Result<seq<Byte>, UpdateError>)
    requires env.release.Some?
    ensures forall candidate :: r == Ok(candidate) <==> Obtains(config, args, env, asset, candidate)
    ensures r == Err(UnsafeAssetName) <==> env.tempDir && IsUnsafeText(asset.name)
    ensures r.Err? ==> !IsLate(r.error)
  {
    UnsafeIff(asset.name);
    if !env.tempDir {
      return Err(TempDirFailed);
    }
    if !IsSafeAssetName(asset.name) {
      return Err(UnsafeAssetName);
    }
    var downloaded := env.download(asset.url);
    if downloaded.None? {
      return Err(DownloadFailed);
    }
    if !args.noVerify {
      var failure := VerifyChecksum(env, env.release.value, asset, downloaded.value, ChecksumRequired(config, args));
      if failure.Some? {
        return Err(failure.value);
      }
    }
    r := PrepareCandidate(config, env, asset.name, downloaded.value);
  }

  /** With no checksum published, a download is accepted only if neither the options nor the policy require one. */
  lemma UncheckedIffNotRequired(config: Config, args: CliArgs, env: Environment, release: Release, asset: ReleaseAsset, bytes: seq<Byte>)
    requires FindChecksumAsset(release, asset).None?
    ensures ChecksumAccepts(env, release, asset, bytes, ChecksumRequired(config, args))
            <==> !args.verifyRequired && config.policy == PreferSha256
  {
  }

  /** A required checksum means the published digest, decoded, is the digest of the downloaded bytes. */
  lemma RequiredChecksumBindsDigest(config: Config, args: CliArgs, env: Environment, asset: ReleaseAsset, candidate: seq<Byte>)
    requires Obtains(config, args, env, asset, candidate)
    requires (args.verifyRequired || config.policy == RequireSha256) && !args.noVerify
    ensures exists file, published ::
              && FindChecksumAsset(env.release.value, asset) == Some(file)
              && env.manifest(file.url).Some?
              && FirstChecksum(Lines(env.manifest(file.url).value), asset.name) == Some(published)
              && IsSha256Hex(published)
              && HexDecode(published) == env.digest(env.download(asset.url).value)
  {
    var bytes := env.download(asset.url).value;
    var file := FindChecksumAsset(env.release.value, asset).value;
    var published := FirstChecksum(Lines(env.manifest(file.url).value), asset.name).value;
    assert ToAsciiLower(published) == published;
    HexComparisonIsDigestComparison(published, env.digest(bytes));
  }

  // ----- The transaction -----

  datatype Event = Validated(bytes: seq<Byte>, ok: bool) | BackedUp(bytes: seq<Byte>) | Replaced(bytes: seq<Byte>)

  /** Everything up to and including the replacement succeeds, with `candidate`. */
  ghost predicate Installs(config: Config, args: CliArgs, env: Environment, asset: ReleaseAsset, candidate: seq<Byte>) {
    && WantsUpdate(config, args, env, asset)
    && Obtains(config, args, env, asset, candidate)
    && Replaceable(env, candidate, TargetOf(env.release.value))
  }

  lemma InstallsOnly(config: Config, args: CliArgs, env: Environment, asset: ReleaseAsset, r: Result<seq<Byte>, UpdateError>)
    requires WantsUpdate(config, args, env, asset)
    requires forall c :: r == Ok(c) <==> Obtains(config, args, env, asset, c)
    ensures r.Ok? ==> (Installs(config, args, env, asset, r.value) <==> Replaceable(env, r.value, TargetOf(env.release.value)))
    ensures forall c :: Installs(config, args, env, asset, c) ==> r == Ok(c)
  {
    if r.Ok? {
      assert Obtains(config, args, env, asset, r.value);
    }
  }

  /** What the transaction works on: the installed bytes, the backup copy, and what has been done so far. */
  datatype Disk = Disk(binary: seq<Byte>, backup: Option<seq<Byte>>, events: seq<Event>)

  /** The checks between having a candidate and replacing the binary. */
  predicate Replaceable(env: Environment, candidate: seq<Byte>, target: string) {
    IsValid(env.semver, env.runCandidate(candidate), target) && env.currentExe && env.backup && env.replace
  }

  predicate WorksInPlace(env: Environment, candidate: seq<Byte>, target: string) {
    IsValid(env.semver, env.runInstalled(candidate), target)
  }

  function UpToReplacement(before: Disk, candidate: seq<Byte>): Disk {
    Disk(candidate, Some(before.binary),
         before.events + [Validated(candidate, true), BackedUp(before.binary), Replaced(candidate)])
  }

  function WithEvents(d: Disk, events: seq<Event>): Disk {
    d.(events := d.events + events)
  }

  /** The disk after a replacement and its validation, and the error reported if there is one. */
  function Settled(env: Environment, before: Disk, candidate: seq<Byte>, target: string): (Disk, Option<UpdateError>) {
    var replaced := UpToReplacement(before, candidate);
    if WorksInPlace(env, candidate, target) then (WithEvents(replaced, [Validated(candidate, true)]), None)
    else if env.rollback then
      (WithEvents(replaced, [Validated(candidate, false), Replaced(before.binary)]).(binary := before.binary), Some(RolledBack))
    else (WithEvents(replaced, [Validated(candidate, false)]), Some(RollbackFailed))
  }

  predicate NoReplacement(events: seq<Event>) {
    forall i :: 0 <= i < |events| ==> !events[i].Replaced?
  }

  /** The installed bytes are as before and nothing was ever put in their place. */
  predicate Untouched(before: Disk, after: Disk) {
    after.binary == before.binary && before.events <= after.events && NoReplacement(after.events[|before.events|..])
  }

  lemma LeavesUntouched(before: Disk, after: Disk, more: seq<Event>)
    requires after.binary == before.binary && after.events == before.events + more && NoReplacement(more)
    ensures Untouched(before, after)
  {
    assert after.events[|before.events|..] == more;
  }

  predicate IsLate(error: UpdateError) {
    error.RolledBack? || error.RollbackFailed?
  }

  /** The last replacement recorded decides what is installed. */
  function LastReplaced(events: seq<Event>, initial: seq<Byte>): seq<Byte>
    decreases |events|
  {
    if events == [] then initial
    else match events[|events| - 1]
      case Replaced(bytes) => bytes
      case _ => LastReplaced(events[..|events| - 1], initial)
  }

  lemma LastReplacedSnoc(events: seq<Event>, e: Event, initial: seq<Byte>)
    ensures LastReplaced(events + [e], initial) == if e.Replaced? then e.bytes else LastReplaced(events, initial)
  {
    assert (events + [e])[..|events|] == events;
  }

  lemma SettledReplacementsAddUp(env: Environment, before: Disk, candidate: seq<Byte>, target: string)
    ensures var after := Settled(env, before, candidate, target).0;
            LastReplaced(after.events, before.binary) == after.binary
  {
    var replaced := UpToReplacement(before, candidate).events;
    var works := WorksInPlace(env, candidate, target);
    assert replaced == before.events + [Validated(candidate, true), BackedUp(before.binary)] + [Replaced(candidate)];
    LastReplacedSnoc(before.events + [Validated(candidate, true), BackedUp(before.binary)], Replaced(candidate), before.binary);
    LastReplacedSnoc(replaced, Validated(candidate, works), before.binary);
    if !works && env.rollback {
      LastReplacedSnoc(replaced + [Validated(candidate, works)], Replaced(before.binary), before.binary);
      assert replaced + [Validated(candidate, false), Replaced(before.binary)]
             == replaced + [Validated(candidate, works)] + [Replaced(before.binary)];
    }
  }

  /**
   After a replacement the binary is the candidate or exactly the original: the original precisely
   when the rollback was reported; no error precisely when the candidate was found valid both before
   and after being put in place; and the recorded replacements account for what is installed.
   */
  lemma SettledIsCandidateOrOriginal(env: Environment, before: Disk, candidate: seq<Byte>, target: string)
    requires Replaceable(env, candidate, target)
    ensures var (after, error) := Settled(env, before, candidate, target);
            && (error.None? <==> IsValid(env.semver, env.runCandidate(candidate), target) && WorksInPlace(env, candidate, target))
            && after.binary == (if error == Some(RolledBack) then before.binary else candidate)
            && after.backup == Some(before.binary)
            && (error.Some? ==> IsLate(error.value) && !WorksInPlace(env, candidate, target))
            && LastReplaced(after.events, before.binary) == after.binary
  {
    SettledReplacementsAddUp(env, before, candidate, target);
  }

  /** A run that replaced the binary ends with what `Settled` says, on disk and in its report. */
  ghost predicate EndsAsSettled(config: Config, env: Environment, candidate: seq<Byte>,
                                before: Disk, after: Disk, r: Result<Outcome, UpdateError>)
  {
    env.release.Some? &&
    var target := TargetOf(env.release.value);
    var (disk, error) := Settled(env, before, candidate, target);
    after == disk && r == (if error.Some? then Err(error.value) else Ok(Updated(Current(config), target)))
  }

  /**
   What one run of `execute` does. The three early outcomes are reported exactly when they apply; the
   disk is touched only when every check up to the replacement has passed, and then it ends `Settled`.
   */
  ghost predicate IsExecution(config: Config, args: CliArgs, env: Environment,
                              before: Disk, after: Disk, r: Result<Outcome, UpdateError>)
  {
    && ((r.Ok? && r.value.AlreadyCurrent?) <==> env.release.Some? && !IsStale(config, env))
    && ((r.Ok? && r.value.CheckOnly?) <==> IsStale(config, env) && args.check)
    && ((r.Ok? && r.value.DryRun?) <==> DryRuns(config, args, env))
    && ((forall asset, candidate :: !Installs(config, args, env, asset, candidate)) ==>
          && Untouched(before, after)
          && (r.Ok? ==> !r.value.Updated?) && (r.Err? ==> !IsLate(r.error)))
    && (forall asset, candidate :: Installs(config, args, env, asset, candidate) ==>
          EndsAsSettled(config, env, candidate, before, after, r))
  }

  /** `candidate` passed every check up to the replacement. */
  ghost predicate IsChecked(config: Config, args: CliArgs, env: Environment, candidate: seq<Byte>) {
    exists asset :: Installs(config, args, env, asset, candidate)
  }

  /**
   The report tells what is installed. After `Updated` it is a checked candidate that is valid in place;
   after a failed rollback a checked candidate that is not; after anything else (a successful rollback,
   the early outcomes, every other error) exactly the original bytes, and unless a rollback is reported
   nothing was ever put in their place.
   */
  lemma ReportTellsWhatIsInstalled(config: Config, args: CliArgs, env: Environment,
                                   before: Disk, after: Disk, r: Result<Outcome, UpdateError>)
    requires IsExecution(config, args, env, before, after, r)
    ensures match r {
              case Ok(Updated(previous, current)) =>
                && IsChecked(config, args, env, after.binary) && WorksInPlace(env, after.binary, current)
                && previous == Current(config) && current == TargetOf(env.release.value)
              case Err(RollbackFailed) =>
                IsChecked(config, args, env, after.binary) && !WorksInPlace(env, after.binary, TargetOf(env.release.value))
              case Err(RolledBack) => after.binary == before.binary
              case _ => Untouched(before, after)
            }
  {
    if asset, candidate :| Installs(config, args, env, asset, candidate) {
      SettledIsCandidateOrOriginal(env, before, candidate, TargetOf(env.release.value));
      assert EndsAsSettled(config, env, candidate, before, after, r);
    }
  }

  /** `Updated` is reported exactly when some candidate passes every check and then works in place. */
  lemma UpdatedIffSomeCandidateWorks(config: Config, args: CliArgs, env: Environment,
                                     before: Disk, after: Disk, r: Result<Outcome, UpdateError>)
    requires IsExecution(config, args, env, before, after, r)
    ensures (r.Ok? && r.value.Updated?) <==>
              env.release.Some? &&
              exists candidate :: IsChecked(config, args, env, candidate) && WorksInPlace(env, candidate, TargetOf(env.release.value))
  {
    if asset, candidate :| Installs(config, args, env, asset, candidate) {
      SettledIsCandidateOrOriginal(env, before, candidate, TargetOf(env.release.value));
      assert EndsAsSettled(config, env, candidate, before, after, r);
      assert IsChecked(config, args, env, candidate);
    }
  }

  class Installation {
    var binary: seq<Byte>
    var backup: Option<seq<Byte>>
    var events: seq<Event>

    function State(): Disk
      reads this
    {
      Disk(binary, backup, events)
    }

    constructor (binary: seq<Byte>)
      ensures State() == Disk(binary, None, [])
    {
      this.binary, backup, events := binary, None, [];
    }

    method Validate(bytes: seq<Byte>, run: Run, semver: SemVerParser, target: string) returns (ok: bool)
      modifies this`events
      ensures ok == IsValid(semver, run, target)
      ensures State() == WithEvents(old(State()), [Validated(bytes, ok)])
    {
      ok := IsValid(semver, run, target);
      events := events + [Validated(bytes, ok)];
    }

    /** `self_replace`: all or nothing. */
    method SelfReplace(bytes: seq<Byte>, succeeds: bool) returns (ok: bool)
      modifies this`binary, this`events
      ensures ok == succeeds
      ensures State() == if ok then WithEvents(old(State()), [Replaced(bytes)]).(binary := bytes) else old(State())
    {
      ok := succeeds;
      if ok {
        binary := bytes;
        events := events + [Replaced(bytes)];
      }
    }

    /** Validate, back up and replace. */
    method Replace(env: Environment, candidate: seq<Byte>, target: string) returns (error: Option<UpdateError>)
      modifies this
      ensures error.None? <==> Replaceable(env, candidate, target)
      ensures error.None? ==> State() == UpToReplacement(old(State()), candidate)
      ensures error.Some? ==> !IsLate(error.value) && Untouched(old(State()), State())
    {
      ghost var before := State();
      var valid := Validate(candidate, env.runCandidate(candidate), env.semver, target);
      LeavesUntouched(before, State(), [Validated(candidate, valid)]);
      if !valid {
        return Some(InvalidCandidate);
      }
      if !env.currentExe {
        return Some(NoCurrentExe);
      }
      if !env.backup {
        return Some(BackupFailed);
      }
      backup := Some(binary);
      events := events + [BackedUp(binary)];
      assert events == before.events + [Validated(candidate, true), BackedUp(before.binary)];
      LeavesUntouched(before, State(), [Validated(candidate, true), BackedUp(before.binary)]);
      var replaced := SelfReplace(candidate, env.replace);
      error := if replaced then None else Some(ReplaceFailed);
    }

    /** Validate in place, and put the backup back if that fails. */
    method Commit(env: Environment, candidate: seq<Byte>, target: string) returns (error: Option<UpdateError>)
      modifies this
      ensures Replaceable(env, candidate, target) ==>
                (State(), error) == Settled(env, old(State()), candidate, target)
      ensures !Replaceable(env, candidate, target) ==>
                error.Some? && !IsLate(error.value) && Untouched(old(State()), State())
    {
      ghost var was := binary;
      error := Replace(env, candidate, target);
      ghost var replaced := events;
      if error.Some? {
        return;
      }
      var works := Validate(binary, env.runInstalled(binary), env.semver, target);
      if !works {
        var restored := SelfReplace(backup.value, env.rollback);
        error := if restored then Some(RolledBack) else Some(RollbackFailed);
        assert replaced + [Validated(candidate, false)] + [Replaced(was)] == replaced + [Validated(candidate, false), Replaced(was)];
      }
    }

    method Execute(config: Config, args: CliArgs, env: Environment) returns (r: Result<Outcome, UpdateError>)
      modifies this
      ensures IsExecution(config, args, env, old(State()), State(), r)
    {
      var plan := MakePlan(config, args, env);
      match plan {
        case Stop(outcome) => return Ok(outcome);
        case Fail(error) => return Err(error);
        case Fetch(asset) =>
          r := Update(config, args, env, asset);
      }
    }

    method Update(config: Config, args: CliArgs, env: Environment, asset: ReleaseAsset) returns (r: Result<Outcome, UpdateError>)
      requires WantsUpdate(config, args, env, asset)
      modifies this
      ensures r.Ok? ==> r.value.Updated?
      ensures (forall candidate :: !Installs(config, args, env, asset, candidate)) ==>
                Untouched(old(State()), State()) && r.Err? && !IsLate(r.error)
      ensures forall candidate :: Installs(config, args, env, asset, candidate) ==>
                EndsAsSettled(config, env, candidate, old(State()), State(), r)
    {
      var obtained := ObtainCandidate(config, args, env, asset);
      InstallsOnly(config, args, env, asset, obtained);
      if obtained.Err? {
        return Err(obtained.error);
      }
      r := Apply(config, env, obtained.value);
    }

    method Apply(config: Config, env: Environment, candidate: seq<Byte>) returns (r: Result<Outcome, UpdateError>)
      requires env.release.Some?
      modifies this
      ensures r.Ok? ==> r.value.Updated?
      ensures if Replaceable(env, candidate, TargetOf(env.release.value))
              then EndsAsSettled(config, env, candidate, old(State()), State(), r)
              else Untouched(old(State()), State()) && r.Err? && !IsLate(r.error)
    {
      var target := TargetOf(env.release.value);
      var error := Commit(env, candidate, target);
      r := if error.Some? then Err(error.value) else Ok(Updated(Current(config), target));
    }
  }
}
