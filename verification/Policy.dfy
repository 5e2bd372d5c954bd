/** The shared policy enums of lib.rs with their parsers, and the printers of args.rs. */
module Policy {
  import opened Prelude
  import opened Text

  datatype ColorMode = AutoColor | Always | Never

  datatype OutputMode = AutoOutput | Human | Json

  datatype LogLevel = Silent | Quiet | Error | Warn | Info | Debug | Trace

  datatype CliPolicy = CliPolicy(output: OutputMode, color: ColorMode, logLevel: LogLevel)

  const DEFAULT_POLICY := CliPolicy(AutoOutput, AutoColor, Info)

  datatype ParsePolicyError = ParsePolicyError(field: string, value: string, expected: string)

  function Normalized(value: string): string {
    ToAsciiLower(Trim(value))
  }

  function ColorOfWord(word: string): Option<ColorMode> {
    if word == "auto" then Some(AutoColor)
    else if word == "always" || word == "on" || word == "true" || word == "yes" || word == "1" then Some(Always)
    else if word == "never" || word == "off" || word == "false" || word == "no" || word == "0" then Some(Never)
    else None
  }

  function OutputOfWord(word: string): Option<OutputMode> {
    if word == "auto" then Some(AutoOutput)
    else if word == "human" || word == "plain" || word == "text" then Some(Human)
    else if word == "json" || word == "ndjson" || word == "structured" then Some(Json)
    else None
  }

  function LogLevelOfWord(word: string): Option<LogLevel> {
    if word == "silent" || word == "off" || word == "none" then Some(Silent)
    else if word == "quiet" then Some(Quiet)
    else if word == "error" || word == "err" then Some(Error)
    else if word == "warn" || word == "warning" then Some(Warn)
    else if word == "info" then Some(Info)
    else if word == "debug" then Some(Debug)
    else if word == "trace" then Some(Trace)
    else None
  }

  function ParseColor(value: string): Result<ColorMode, ParsePolicyError> {
    match ColorOfWord(Normalized(value))
    case Some(mode) => Ok(mode)
    case None => Err(ParsePolicyError("color", value, "auto, always, or never"))
  }

  function ParseOutput(value: string): Result<OutputMode, ParsePolicyError> {
    match OutputOfWord(Normalized(value))
    case Some(mode) => Ok(mode)
    case None => Err(ParsePolicyError("output", value, "auto, human, or json"))
  }

  function ParseLogLevel(value: string): Result<LogLevel, ParsePolicyError> {
    match LogLevelOfWord(Normalized(value))
    case Some(level) => Ok(level)
    case None => Err(ParsePolicyError("log-level", value, "silent, quiet, error, warn, info, debug, or trace"))
  }

  function ColorName(mode: ColorMode): string {
    match mode
    case AutoColor => "auto"
    case Always => "always"
    case Never => "never"
  }

  function OutputName(mode: OutputMode): string {
    match mode
    case AutoOutput => "auto"
    case Human => "human"
    case Json => "json"
  }

  function LogLevelName(level: LogLevel): string {
    match level
    case Silent => "silent"
    case Quiet => "quiet"
    case Error => "error"
    case Warn => "warn"
    case Info => "info"
    case Debug => "debug"
    case Trace => "trace"
  }

  predicate IsPlainWord(word: string) {
    forall i :: 0 <= i < |word| ==> 'a' <= word[i] <= 'z'
  }

  lemma PlainWordIsNormal(word: string)
    requires IsPlainWord(word)
    ensures Normalized(word) == word
  {
    assert IsTrimmed(word);
    TrimmedIsFixed(word);
    var lower := ToAsciiLower(word);
    forall i | 0 <= i < |word| ensures lower[i] == word[i] {
    }
  }

  lemma ColorWord(mode: ColorMode)
    ensures ColorOfWord(ColorName(mode)) == Some(mode) && IsPlainWord(ColorName(mode))
  {
  }

  lemma OutputWord(mode: OutputMode)
    ensures OutputOfWord(OutputName(mode)) == Some(mode) && IsPlainWord(OutputName(mode))
  {
  }

  lemma LogLevelWord(level: LogLevel)
    ensures LogLevelOfWord(LogLevelName(level)) == Some(level) && IsPlainWord(LogLevelName(level))
  {
    match level {
      case Silent =>
      case Quiet =>
      case Error =>
      case Warn =>
      case Info =>
      case Debug =>
      case Trace =>
    }
  }

  lemma OutputRoundTrips(mode: OutputMode)
    ensures ParseOutput(OutputName(mode)) == Ok(mode)
  {
    OutputWord(mode);
    PlainWordIsNormal(OutputName(mode));
  }

  lemma ColorRoundTrips(mode: ColorMode)
    ensures ParseColor(ColorName(mode)) == Ok(mode)
  {
    ColorWord(mode);
    PlainWordIsNormal(ColorName(mode));
  }

  lemma LogLevelRoundTrips(level: LogLevel)
    ensures ParseLogLevel(LogLevelName(level)) == Ok(level)
  {
    LogLevelWord(level);
    PlainWordIsNormal(LogLevelName(level));
  }

  /** Printing any policy value and parsing it back is the identity. */
  lemma NamesRoundTrip(policy: CliPolicy)
    ensures ParseOutput(OutputName(policy.output)) == Ok(policy.output)
    ensures ParseColor(ColorName(policy.color)) == Ok(policy.color)
    ensures ParseLogLevel(LogLevelName(policy.logLevel)) == Ok(policy.logLevel)
  {
    OutputRoundTrips(policy.output);
    ColorRoundTrips(policy.color);
    LogLevelRoundTrips(policy.logLevel);
  }

  predicate IsWordStart(c: char) {
    'a' <= c <= 'z' || '0' <= c <= '9'
  }

  lemma NoSuchWord(word: string)
    requires word != [] && !IsWordStart(word[0])
    ensures OutputOfWord(word).None? && LogLevelOfWord(word).None? && ColorOfWord(word).None?
  {
  }

  /** A value that starts with a character no policy word starts with names no policy value. */
  lemma ForeignStartIsRefused(value: string)
    requires value != [] && !IsWhitespace(value[0]) && !IsWordStart(AsciiLower(value[0]))
    ensures ParseOutput(value).Err? && ParseLogLevel(value).Err? && ParseColor(value).Err?
  {
    assert TrimStart(value) == value;
    FirstCharSurvivesTrimEnd(value);
    NoSuchWord(Normalized(value));
  }

  lemma {:induction false} FirstCharSurvivesTrimEnd(value: string)
    requires value != [] && !IsWhitespace(value[0])
    ensures TrimEnd(value) != [] && TrimEnd(value)[0] == value[0]
    decreases |value|
  {
    if IsWhitespace(value[|value| - 1]) {
      FirstCharSurvivesTrimEnd(value[..|value| - 1]);
    }
  }
}
