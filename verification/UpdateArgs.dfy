/** The `self-update` argument loop of self_update.rs. */
module UpdateArgs {
  import opened Prelude

  /** `Option<bool>` for the interactive switch: absent, `--interactive`, `--non-interactive`. */
  datatype Prompt = Unset | Ask | DoNotAsk

  datatype CliArgs = CliArgs(
    version: Option<string>,
    interactive: Prompt,
    assumeYes: bool,
    check: bool,
    dryRun: bool,
    verifyRequired: bool,
    noVerify: bool,
    json: bool,
    help: bool)

  const NO_ARGS := CliArgs(None, Unset, false, false, false, false, false, false, false)

  datatype ArgError = UnknownOption(arg: string) | TwoVersions | InteractiveConflict | VerifyConflict | YesConflict

  datatype Kind =
    | Interactive(prompt: Prompt) | Yes | Check | DryRun | Verify | NoVerify | JsonOutput | Help
    | Unknown
    | Version

  function KindOf(arg: string): Kind {
    if arg == "--interactive" then Interactive(Ask)
    else if arg == "--non-interactive" then Interactive(DoNotAsk)
    else if arg == "--yes" || arg == "-y" then Yes
    else if arg == "--check" then Check
    else if arg == "--dry-run" then DryRun
    else if arg == "--verify" then Verify
    else if arg == "--no-verify" then NoVerify
    else if arg == "--json" then JsonOutput
    else if arg == "--help" || arg == "-h" then Help
    else if "-" <= arg then Unknown
    else Version
  }

  // ----- What an argument list asks for -----

  /** Argument kinds; the loop depends on the spellings only through these. */
  type Kinds = string -> Kind

  ghost predicate Definite(kinds: Kinds) {
    forall arg :: kinds(arg) != Interactive(Unset)
  }

  predicate Has(kinds: Kinds, args: seq<string>, kind: Kind) {
    exists i :: 0 <= i < |args| && kinds(args[i]) == kind
  }

  predicate IsVersionAt(kinds: Kinds, args: seq<string>, i: int) {
    0 <= i < |args| && kinds(args[i]).Version?
  }

  ghost predicate OneVersion(kinds: Kinds, args: seq<string>) {
    forall i, j :: IsVersionAt(kinds, args, i) && IsVersionAt(kinds, args, j) ==> i == j
  }

  /** No unknown option, at most one version, and no contradictory pair, wherever they stand. */
  ghost predicate Acceptable(kinds: Kinds, args: seq<string>) {
    && !Has(kinds, args, Unknown)
    && OneVersion(kinds, args)
    && !(Has(kinds, args, Interactive(Ask)) && Has(kinds, args, Interactive(DoNotAsk)))
    && !(Has(kinds, args, Verify) && Has(kinds, args, NoVerify))
    && !(Has(kinds, args, Yes) && Has(kinds, args, Interactive(Ask)))
  }

  /** The switches an argument list turns on. */
  function FlagsOf(kinds: Kinds, args: seq<string>): CliArgs {
    CliArgs(None, Unset, Has(kinds, args, Yes), Has(kinds, args, Check), Has(kinds, args, DryRun), Has(kinds, args, Verify),
            Has(kinds, args, NoVerify), Has(kinds, args, JsonOutput), Has(kinds, args, Help))
  }

  predicate FlagsDescribe(kinds: Kinds, p: CliArgs, args: seq<string>) {
    p.(version := None, interactive := Unset) == FlagsOf(kinds, args)
  }

  predicate ModeDescribes(kinds: Kinds, p: CliArgs, args: seq<string>) {
    && (p.interactive == Ask <==> Has(kinds, args, Interactive(Ask)))
    && (p.interactive == DoNotAsk <==> Has(kinds, args, Interactive(DoNotAsk)))
  }

  ghost predicate VersionDescribes(kinds: Kinds, p: CliArgs, args: seq<string>) {
    match p.version
    case None => !Has(kinds, args, Version)
    case Some(v) => exists i :: IsVersionAt(kinds, args, i) && args[i] == v
  }

  ghost predicate Describes(kinds: Kinds, p: CliArgs, args: seq<string>) {
    FlagsDescribe(kinds, p, args) && ModeDescribes(kinds, p, args) && VersionDescribes(kinds, p, args)
  }

  /** What the loop has established about the arguments behind it. */
  ghost predicate Seen(kinds: Kinds, p: CliArgs, args: seq<string>) {
    Describes(kinds, p, args) && !Has(kinds, args, Unknown) && OneVersion(kinds, args)
  }

  lemma HasSnoc(kinds: Kinds, args: seq<string>, arg: string, kind: Kind)
    ensures Has(kinds, args + [arg], kind) <==> Has(kinds, args, kind) || kinds(arg) == kind
  {
    var all := args + [arg];
    if i :| 0 <= i < |args| && kinds(args[i]) == kind {
      assert all[i] == args[i];
    }
    assert all[|args|] == arg;
  }

  lemma AllHasSnoc(kinds: Kinds, args: seq<string>, arg: string)
    ensures forall kind :: Has(kinds, args + [arg], kind) <==> Has(kinds, args, kind) || kinds(arg) == kind
  {
    forall kind ensures Has(kinds, args + [arg], kind) <==> Has(kinds, args, kind) || kinds(arg) == kind {
      HasSnoc(kinds, args, arg, kind);
    }
  }

  lemma VersionSnoc(kinds: Kinds, p: CliArgs, args: seq<string>, arg: string)
    requires VersionDescribes(kinds, p, args) && OneVersion(kinds, args)
    ensures !kinds(arg).Version? ==> VersionDescribes(kinds, p, args + [arg]) && OneVersion(kinds, args + [arg])
    ensures kinds(arg).Version? && p.version.None? ==>
              VersionDescribes(kinds, p.(version := Some(arg)), args + [arg]) && OneVersion(kinds, args + [arg])
    ensures kinds(arg).Version? && p.version.Some? ==> !OneVersion(kinds, args + [arg])
  {
    var all := args + [arg];
    assert forall i :: 0 <= i < |args| ==> all[i] == args[i];
    assert forall i :: IsVersionAt(kinds, all, i) <==> IsVersionAt(kinds, args, i) || (i == |args| && kinds(arg).Version?);
    if p.version.None? {
      assert forall i :: !IsVersionAt(kinds, args, i);
      assert kinds(arg).Version? ==> IsVersionAt(kinds, all, |args|) && all[|args|] == arg;
    } else {
      var i :| IsVersionAt(kinds, args, i) && args[i] == p.version.value;
      assert IsVersionAt(kinds, all, i) && all[i] == p.version.value;
      assert kinds(arg).Version? ==> IsVersionAt(kinds, all, |args|) && i != |args|;
    }
  }

  /** What is wrong with the list, wherever it stands in it. */
  ghost predicate IsCause(kinds: Kinds, e: ArgError, args: seq<string>) {
    match e
    case UnknownOption(arg) => arg in args && kinds(arg) == Unknown
    case TwoVersions => !OneVersion(kinds, args)
    case InteractiveConflict => Has(kinds, args, Interactive(Ask)) && Has(kinds, args, Interactive(DoNotAsk))
    case VerifyConflict => Has(kinds, args, Verify) && Has(kinds, args, NoVerify)
    case YesConflict => Has(kinds, args, Yes) && Has(kinds, args, Interactive(Ask))
  }

  lemma CauseRefutes(kinds: Kinds, e: ArgError, args: seq<string>)
    requires IsCause(kinds, e, args)
    ensures !Acceptable(kinds, args)
  {
    if e.UnknownOption? {
      var i :| 0 <= i < |args| && args[i] == e.arg;
      assert Has(kinds, args, Unknown);
    }
  }

  /** What is wrong with a prefix is wrong with the whole list. */
  lemma CausePersists(kinds: Kinds, args: seq<string>, rest: seq<string>)
    ensures forall e :: IsCause(kinds, e, args) ==> IsCause(kinds, e, args + rest)
  {
    var all := args + rest;
    assert forall i :: 0 <= i < |args| ==> all[i] == args[i];
    assert forall kind :: Has(kinds, args, kind) ==> Has(kinds, all, kind);
    assert forall i :: IsVersionAt(kinds, args, i) ==> IsVersionAt(kinds, all, i);
  }

  // ----- The loop -----

  function SetInteractive(p: CliArgs, prompt: Prompt): Result<CliArgs, ArgError> {
    if !p.interactive.Unset? && p.interactive != prompt then Err(InteractiveConflict) else Ok(p.(interactive := prompt))
  }

  function TakeArg(kinds: Kinds, p: CliArgs, arg: string): Result<CliArgs, ArgError> {
    match kinds(arg)
    case Interactive(prompt) => SetInteractive(p, prompt)
    case Yes => Ok(p.(assumeYes := true))
    case Check => Ok(p.(check := true))
    case DryRun => Ok(p.(dryRun := true))
    case Verify => Ok(p.(verifyRequired := true))
    case NoVerify => Ok(p.(noVerify := true))
    case JsonOutput => Ok(p.(json := true))
    case Help => Ok(p.(help := true))
    case Unknown => Err(UnknownOption(arg))
    case Version => if p.version.Some? then Err(TwoVersions) else Ok(p.(version := Some(arg)))
  }

  lemma TakeSetsOneFlag(kinds: Kinds, p: CliArgs, arg: string)
    requires TakeArg(kinds, p, arg).Ok?
    ensures var q, kind := TakeArg(kinds, p, arg).value, kinds(arg);
            q == CliArgs(q.version, q.interactive, p.assumeYes || kind.Yes?, p.check || kind.Check?, p.dryRun || kind.DryRun?,
                         p.verifyRequired || kind.Verify?, p.noVerify || kind.NoVerify?, p.json || kind.JsonOutput?,
                         p.help || kind.Help?)
  {
    match kinds(arg) {
      case Interactive(_) =>
      case Yes =>
      case Check =>
      case DryRun =>
      case Verify =>
      case NoVerify =>
      case JsonOutput =>
      case Help =>
      case Unknown =>
      case Version =>
    }
  }

  lemma TakeKeepsFlags(kinds: Kinds, p: CliArgs, args: seq<string>, arg: string)
    requires FlagsDescribe(kinds, p, args) && TakeArg(kinds, p, arg).Ok?
    ensures FlagsDescribe(kinds, TakeArg(kinds, p, arg).value, args + [arg])
  {
    TakeSetsOneFlag(kinds, p, arg);
    HasSnoc(kinds, args, arg, Yes);
    HasSnoc(kinds, args, arg, Check);
    HasSnoc(kinds, args, arg, DryRun);
    HasSnoc(kinds, args, arg, Verify);
    HasSnoc(kinds, args, arg, NoVerify);
    HasSnoc(kinds, args, arg, JsonOutput);
    HasSnoc(kinds, args, arg, Help);
  }

  lemma TakeKeepsMode(kinds: Kinds, p: CliArgs, args: seq<string>, arg: string)
    requires ModeDescribes(kinds, p, args) && TakeArg(kinds, p, arg).Ok?
    requires kinds(arg) != Interactive(Unset)
    ensures ModeDescribes(kinds, TakeArg(kinds, p, arg).value, args + [arg])
  {
    HasSnoc(kinds, args, arg, Interactive(Ask));
    HasSnoc(kinds, args, arg, Interactive(DoNotAsk));
  }

  lemma TakeKeepsVersion(kinds: Kinds, p: CliArgs, args: seq<string>, arg: string)
    requires VersionDescribes(kinds, p, args) && OneVersion(kinds, args) && TakeArg(kinds, p, arg).Ok?
    ensures VersionDescribes(kinds, TakeArg(kinds, p, arg).value, args + [arg])
    ensures OneVersion(kinds, args + [arg])
  {
    VersionSnoc(kinds, p, args, arg);
    if !kinds(arg).Version? {
      assert TakeArg(kinds, p, arg).value.version == p.version;
    }
  }

  /** An argument the loop refuses is a fault of the whole list. */
  lemma RefusedArg(kinds: Kinds, p: CliArgs, args: seq<string>, i: nat)
    requires Definite(kinds)
    requires i < |args| && Seen(kinds, p, args[..i]) && TakeArg(kinds, p, args[i]).Err?
    ensures IsFault(kinds, TakeArg(kinds, p, args[i]).error, args)
  {
    var e := TakeArg(kinds, p, args[i]).error;
    AllHasSnoc(kinds, args[..i], args[i]);
    VersionSnoc(kinds, p, args[..i], args[i]);
    CausePersists(kinds, args[..i] + [args[i]], args[i + 1..]);
    assert args[..i] + [args[i]] + args[i + 1..] == args;
    CauseRefutes(kinds, e, args);
  }

  ghost predicate IsFault(kinds: Kinds, e: ArgError, args: seq<string>) {
    IsCause(kinds, e, args) && !Acceptable(kinds, args)
  }

  /** Accepts exactly the acceptable lists, in any order of arguments, and reports exactly what they say or what is wrong. */
  method ParseArgs(kinds: Kinds, args: seq<string>) returns (r: Result<CliArgs, ArgError>)
    requires Definite(kinds)
    ensures r.Ok? <==> Acceptable(kinds, args)
    ensures r.Ok? ==> Describes(kinds, r.value, args)
    ensures r.Err? ==> IsCause(kinds, r.error, args)
  {
    var parsed := NO_ARGS;
    for i := 0 to |args|
      invariant Seen(kinds, parsed, args[..i])
    {
      ghost var before := args[..i];
      assert args[..i + 1] == before + [args[i]];
      if TakeArg(kinds, parsed, args[i]).Err? {
        RefusedArg(kinds, parsed, args, i);
      } else {
        TakeKeepsFlags(kinds, parsed, before, args[i]);
        TakeKeepsMode(kinds, parsed, before, args[i]);
        TakeKeepsVersion(kinds, parsed, before, args[i]);
        HasSnoc(kinds, before, args[i], Unknown);
      }
      parsed :- TakeArg(kinds, parsed, args[i]);
    }
    assert args[..|args|] == args;
    if parsed.verifyRequired && parsed.noVerify {
      return Err(VerifyConflict);
    }
    if parsed.assumeYes && parsed.interactive == Ask {
      return Err(YesConflict);
    }
    r := Ok(parsed);
  }

  method ParseCliArgs(args: seq<string>) returns (r: Result<CliArgs, ArgError>)
    ensures r.Ok? <==> Acceptable(KindOf, args)
    ensures r.Ok? ==> Describes(KindOf, r.value, args)
    ensures r.Err? ==> IsCause(KindOf, r.error, args)
    ensures r.Ok? <==> IsAcceptableText(args)
    ensures r.Ok? ==> Says(args, r.value)
  {
    r := ParseArgs(KindOf, args);
    AcceptableIffText(args);
    if r.Ok? {
      DescribedIsSaid(args, r.value);
    }
  }

  // ----- The spellings -----

  const OPTIONS: seq<string> := [
    "--interactive", "--non-interactive", "--yes", "-y", "--check", "--dry-run", "--verify", "--no-verify", "--json", "--help", "-h"]

  predicate IsDashed(arg: string) {
    arg != [] && arg[0] == '-'
  }

  /** What the spellings in the list mean, switch by switch. */
  predicate Says(args: seq<string>, p: CliArgs) {
    && p == CliArgs(p.version, p.interactive, "--yes" in args || "-y" in args, "--check" in args, "--dry-run" in args,
                    "--verify" in args, "--no-verify" in args, "--json" in args, "--help" in args || "-h" in args)
    && (p.interactive == Ask <==> "--interactive" in args)
    && (p.interactive == DoNotAsk <==> "--non-interactive" in args)
    && (match p.version
        case None => forall arg :: arg in args ==> IsDashed(arg)
        case Some(v) => v in args && !IsDashed(v))
  }

  /** Known options only, one argument without a dash at most, and no contradictory pair. */
  predicate IsAcceptableText(args: seq<string>) {
    && (forall arg :: arg in args && IsDashed(arg) ==> arg in OPTIONS)
    && (forall i, j :: 0 <= i < j < |args| ==> IsDashed(args[i]) || IsDashed(args[j]))
    && !("--interactive" in args && "--non-interactive" in args)
    && !("--verify" in args && "--no-verify" in args)
    && !(("--yes" in args || "-y" in args) && "--interactive" in args)
  }

  lemma KindIs(arg: string)
    ensures KindOf(arg) == Interactive(Ask) <==> arg == "--interactive"
    ensures KindOf(arg) == Interactive(DoNotAsk) <==> arg == "--non-interactive"
    ensures KindOf(arg) == Yes <==> arg == "--yes" || arg == "-y"
    ensures KindOf(arg) == Check <==> arg == "--check"
    ensures KindOf(arg) == DryRun <==> arg == "--dry-run"
    ensures KindOf(arg) == Verify <==> arg == "--verify"
    ensures KindOf(arg) == NoVerify <==> arg == "--no-verify"
    ensures KindOf(arg) == JsonOutput <==> arg == "--json"
    ensures KindOf(arg) == Help <==> arg == "--help" || arg == "-h"
  {
  }

  lemma KindOfRest(arg: string)
    ensures KindOf(arg) == Version <==> !IsDashed(arg)
    ensures KindOf(arg) == Unknown <==> IsDashed(arg) && arg !in OPTIONS
  {
    assert IsDashed(arg) <==> "-" <= arg;
  }

  lemma HasOne(args: seq<string>, kind: Kind, spelling: string)
    requires forall arg :: KindOf(arg) == kind <==> arg == spelling
    ensures Has(KindOf, args, kind) <==> spelling in args
  {
  }

  lemma HasEither(args: seq<string>, kind: Kind, spelling: string, short: string)
    requires forall arg :: KindOf(arg) == kind <==> arg == spelling || arg == short
    ensures Has(KindOf, args, kind) <==> spelling in args || short in args
  {
  }

  /** Which kinds occur, told by the spellings that occur. */
  lemma KindsAreSpellings(args: seq<string>)
    ensures Has(KindOf, args, Interactive(Ask)) <==> "--interactive" in args
    ensures Has(KindOf, args, Interactive(DoNotAsk)) <==> "--non-interactive" in args
    ensures FlagsOf(KindOf, args)
            == CliArgs(None, Unset, "--yes" in args || "-y" in args, "--check" in args, "--dry-run" in args,
                       "--verify" in args, "--no-verify" in args, "--json" in args, "--help" in args || "-h" in args)
  {
    forall arg ensures KindOf(arg) == Interactive(Ask) <==> arg == "--interactive" {
      KindIs(arg);
    }
    forall arg ensures KindOf(arg) == Interactive(DoNotAsk) <==> arg == "--non-interactive" {
      KindIs(arg);
    }
    forall arg ensures KindOf(arg) == Yes <==> arg == "--yes" || arg == "-y" {
      KindIs(arg);
    }
    forall arg ensures KindOf(arg) == Check <==> arg == "--check" {
      KindIs(arg);
    }
    forall arg ensures KindOf(arg) == DryRun <==> arg == "--dry-run" {
      KindIs(arg);
    }
    forall arg ensures KindOf(arg) == Verify <==> arg == "--verify" {
      KindIs(arg);
    }
    forall arg ensures KindOf(arg) == NoVerify <==> arg == "--no-verify" {
      KindIs(arg);
    }
    forall arg ensures KindOf(arg) == JsonOutput <==> arg == "--json" {
      KindIs(arg);
    }
    forall arg ensures KindOf(arg) == Help <==> arg == "--help" || arg == "-h" {
      KindIs(arg);
    }
    HasOne(args, Interactive(Ask), "--interactive");
    HasOne(args, Interactive(DoNotAsk), "--non-interactive");
    HasEither(args, Yes, "--yes", "-y");
    HasOne(args, Check, "--check");
    HasOne(args, DryRun, "--dry-run");
    HasOne(args, Verify, "--verify");
    HasOne(args, NoVerify, "--no-verify");
    HasOne(args, JsonOutput, "--json");
    HasEither(args, Help, "--help", "-h");
  }

  lemma AcceptableIffText(args: seq<string>)
    ensures Acceptable(KindOf, args) <==> IsAcceptableText(args)
  {
    KindsAreSpellings(args);
    var flags := FlagsOf(KindOf, args);
    assert flags.assumeYes == Has(KindOf, args, Yes) && flags.verifyRequired == Has(KindOf, args, Verify);
    assert flags.noVerify == Has(KindOf, args, NoVerify);
    KnownIffText(args);
    OneVersionIffText(args);
  }

  lemma KnownIffText(args: seq<string>)
    ensures Has(KindOf, args, Unknown) <==> exists arg :: arg in args && IsDashed(arg) && arg !in OPTIONS
  {
    forall arg ensures KindOf(arg) == Unknown <==> IsDashed(arg) && arg !in OPTIONS {
      KindOfRest(arg);
    }
  }

  lemma OneVersionIffText(args: seq<string>)
    ensures OneVersion(KindOf, args) <==> forall i, j :: 0 <= i < j < |args| ==> IsDashed(args[i]) || IsDashed(args[j])
  {
    forall i ensures IsVersionAt(KindOf, args, i) <==> 0 <= i < |args| && !IsDashed(args[i]) {
      if 0 <= i < |args| {
        KindOfRest(args[i]);
      }
    }
  }

  lemma DescribedIsSaid(args: seq<string>, p: CliArgs)
    requires Describes(KindOf, p, args)
    ensures Says(args, p)
  {
    KindsAreSpellings(args);
    forall arg ensures KindOf(arg) == Version <==> !IsDashed(arg) {
      KindOfRest(arg);
    }
  }

  /** What a list says does not depend on the order of its arguments. */
  lemma DescriptionIgnoresOrder(kinds: Kinds, p: CliArgs, q: CliArgs, args: seq<string>, permuted: seq<string>)
    requires multiset(args) == multiset(permuted)
    requires OneVersion(kinds, args) && OneVersion(kinds, permuted)
    requires Describes(kinds, p, args) && Describes(kinds, q, permuted)
    ensures p == q
  {
    HasIgnoresOrder(kinds, args, permuted);
    if p.version.Some? && q.version.Some? {
      var i :| IsVersionAt(kinds, args, i) && args[i] == p.version.value;
      var j :| IsVersionAt(kinds, permuted, j) && permuted[j] == q.version.value;
      assert permuted[j] in multiset(args);
      var k :| 0 <= k < |args| && args[k] == permuted[j];
      assert IsVersionAt(kinds, args, k);
    }
    assert Has(kinds, args, Version) <==> Has(kinds, permuted, Version);
    VersionPresence(kinds, p, args);
    VersionPresence(kinds, q, permuted);
    ModeIgnoresOrder(kinds, p, q, args, permuted);
    FlagsIgnoreOrder(kinds, p, q, args, permuted);
  }

  lemma VersionPresence(kinds: Kinds, p: CliArgs, args: seq<string>)
    requires VersionDescribes(kinds, p, args)
    ensures p.version.Some? <==> Has(kinds, args, Version)
  {
  }

  lemma ModeIgnoresOrder(kinds: Kinds, p: CliArgs, q: CliArgs, args: seq<string>, permuted: seq<string>)
    requires forall kind :: Has(kinds, args, kind) <==> Has(kinds, permuted, kind)
    requires ModeDescribes(kinds, p, args) && ModeDescribes(kinds, q, permuted)
    ensures p.interactive == q.interactive
  {
    assert Has(kinds, args, Interactive(Ask)) <==> Has(kinds, permuted, Interactive(Ask));
    assert Has(kinds, args, Interactive(DoNotAsk)) <==> Has(kinds, permuted, Interactive(DoNotAsk));
  }

  lemma FlagsIgnoreOrder(kinds: Kinds, p: CliArgs, q: CliArgs, args: seq<string>, permuted: seq<string>)
    requires forall kind :: Has(kinds, args, kind) <==> Has(kinds, permuted, kind)
    requires FlagsDescribe(kinds, p, args) && FlagsDescribe(kinds, q, permuted)
    ensures p.(version := None, interactive := Unset) == q.(version := None, interactive := Unset)
  {
  }

  lemma HasIgnoresOrder(kinds: Kinds, args: seq<string>, permuted: seq<string>)
    requires multiset(args) == multiset(permuted)
    ensures forall kind :: Has(kinds, args, kind) <==> Has(kinds, permuted, kind)
  {
    HasInPermutation(kinds, args, permuted);
    HasInPermutation(kinds, permuted, args);
  }

  lemma HasInPermutation(kinds: Kinds, args: seq<string>, permuted: seq<string>)
    requires multiset(args) == multiset(permuted)
    ensures forall kind :: Has(kinds, args, kind) ==> Has(kinds, permuted, kind)
  {
    forall kind | Has(kinds, args, kind) ensures Has(kinds, permuted, kind) {
      var i :| 0 <= i < |args| && kinds(args[i]) == kind;
      assert args[i] in multiset(permuted);
      var j :| 0 <= j < |permuted| && permuted[j] == args[i];
    }
  }
}
