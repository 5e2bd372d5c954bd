/** The shared argv parser of args.rs: its loop, and the functional specification the loop meets. */
module SharedArgs {
  import opened Prelude
  import opened Policy

  datatype Field = OutputField | ColorField | LogLevelField

  datatype Choice = ChooseOutput(output: OutputMode) | ChooseColor(color: ColorMode) | ChooseLogLevel(level: LogLevel)

  datatype SharedArgError =
    | MissingValue(flag: string)
    | InvalidValue(flag: string, value: string, cause: ParsePolicyError)
    | Conflict(field: Field, first: string, second: string)

  datatype ParsedSharedArgs = ParsedSharedArgs(
    policy: CliPolicy,
    passthrough: seq<string>,
    explicitOutput: bool,
    explicitColor: bool,
    explicitLogLevel: bool)

  /** How the parser reads a token at option position. */
  datatype Kind =
    | Terminator
    | Inline(field: Field, value: string)  // --field=value
    | Flag(choice: Choice)                 // a spelling that is a choice by itself
    | Split(field: Field)                  // takes its value from the next token
    | Unowned

  function Classify(token: string): Kind {
    if token == "--" then Terminator
    else if "--color=" <= token then Inline(ColorField, token[8..])
    else if "--output=" <= token then Inline(OutputField, token[9..])
    else if "--log-level=" <= token then Inline(LogLevelField, token[12..])
    else if token == "--color" then Flag(ChooseColor(Always))
    else if token == "--no-color" || token == "--!color" then Flag(ChooseColor(Never))
    else if token == "--json" then Flag(ChooseOutput(Json))
    else if token == "--no-json" || token == "--!json" then Flag(ChooseOutput(Human))
    else if token == "--quiet" then Flag(ChooseLogLevel(Quiet))
    else if token == "--silent" then Flag(ChooseLogLevel(Silent))
    else if token == "--output" then Split(OutputField)
    else if token == "--log-level" then Split(LogLevelField)
    else Unowned
  }

  function FlagName(field: Field): string {
    match field
    case OutputField => "--output"
    case ColorField => "--color"
    case LogLevelField => "--log-level"
  }

  // ----- Specification -----

  /** What the option at the head of argv asks for. */
  datatype Item = Pass(token: string) | Choose(choice: Choice, spelling: string)

  function Lift<T>(field: Field, value: string, parsed: Result<T, ParsePolicyError>, wrap: T -> Choice): Result<Choice, SharedArgError> {
    match parsed
    case Ok(v) => Ok(wrap(v))
    case Err(e) => Err(InvalidValue(FlagName(field), value, e))
  }

  function ReadValue(field: Field, value: string): Result<Choice, SharedArgError> {
    match field
    case OutputField => Lift(field, value, ParseOutput(value), v => ChooseOutput(v))
    case ColorField => Lift(field, value, ParseColor(value), v => ChooseColor(v))
    case LogLevelField => Lift(field, value, ParseLogLevel(value), v => ChooseLogLevel(v))
  }

  /**
   What a parser owns: how it classifies option tokens and reads their values. The loop and its laws
   do not depend on the particular spellings; the shared parser is the loop over `SHARED`.
   */
  datatype Grammar = Grammar(
    classify: string -> Kind,
    readInline: (Field, string) -> Result<Choice, SharedArgError>,  // the value of --field=value
    readNext: (Field, string) -> Result<Choice, SharedArgError>)    // a value in a token of its own

  const SHARED: Grammar :=
    Grammar(token => Classify(token), (field, value) => ReadValue(field, value), (field, value) => ReadValue(field, value))

  function Chosen(choice: Result<Choice, SharedArgError>, spelling: string): Result<Item, SharedArgError> {
    match choice
    case Ok(c) => Ok(Choose(c, spelling))
    case Err(e) => Err(e)
  }

  function ReadItem(g: Grammar, tokens: seq<string>): Result<Item, SharedArgError>
    requires tokens != []
  {
    match g.classify(tokens[0])
    case Inline(field, value) => Chosen(g.readInline(field, value), value)
    case Flag(choice) => Ok(Choose(choice, tokens[0]))
    case Split(field) =>
      if |tokens| == 1 then Err(MissingValue(FlagName(field))) else Chosen(g.readNext(field, tokens[1]), tokens[1])
    case _ => Ok(Pass(tokens[0]))
  }

  /** Tokens the option at the head of argv takes. */
  function Width(g: Grammar, tokens: seq<string>): (n: nat)
    requires tokens != []
    ensures 1 <= n <= |tokens|
  {
    if g.classify(tokens[0]).Split? && |tokens| > 1 then 2 else 1
  }

  /** A field's first explicit choice with the spelling that made it. */
  type Slot<T> = Option<(T, string)>

  datatype Acc = Acc(output: Slot<OutputMode>, color: Slot<ColorMode>, level: Slot<LogLevel>, passthrough: seq<string>)

  const EMPTY := Acc(None, None, None, [])

  /** First choice wins; repeating it is idempotent; contradicting it is an error. */
  function SetExplicit<T(==)>(slot: Slot<T>, value: T, spelling: string, field: Field): Result<Slot<T>, SharedArgError> {
    match slot
    case None => Ok(Some((value, spelling)))
    case Some((existing, first)) => if existing == value then Ok(slot) else Err(Conflict(field, first, spelling))
  }

  function Apply(acc: Acc, item: Item): Result<Acc, SharedArgError> {
    match item
    case Pass(token) => Ok(acc.(passthrough := acc.passthrough + [token]))
    case Choose(ChooseOutput(v), spelling) =>
      var slot :- SetExplicit(acc.output, v, spelling, OutputField);
      Ok(acc.(output := slot))
    case Choose(ChooseColor(v), spelling) =>
      var slot :- SetExplicit(acc.color, v, spelling, ColorField);
      Ok(acc.(color := slot))
    case Choose(ChooseLogLevel(v), spelling) =>
      var slot :- SetExplicit(acc.level, v, spelling, LogLevelField);
      Ok(acc.(level := slot))
  }

  function ParseFrom(g: Grammar, tokens: seq<string>, acc: Acc): Result<Acc, SharedArgError>
    decreases |tokens|
  {
    if tokens == [] then Ok(acc)
    else if g.classify(tokens[0]).Terminator? then Ok(acc.(passthrough := acc.passthrough + tokens))
    else
      var item :- ReadItem(g, tokens);
      var next :- Apply(acc, item);
      ParseFrom(g, tokens[Width(g, tokens)..], next)
  }

  function Finish(acc: Acc): ParsedSharedArgs {
    ParsedSharedArgs(
      CliPolicy(if acc.output.Some? then acc.output.value.0 else DEFAULT_POLICY.output,
                if acc.color.Some? then acc.color.value.0 else DEFAULT_POLICY.color,
                if acc.level.Some? then acc.level.value.0 else DEFAULT_POLICY.logLevel),
      acc.passthrough, acc.output.Some?, acc.color.Some?, acc.level.Some?)
  }

  function Parse(g: Grammar, tokens: seq<string>): Result<ParsedSharedArgs, SharedArgError> {
    match ParseFrom(g, tokens, EMPTY)
    case Ok(acc) => Ok(Finish(acc))
    case Err(e) => Err(e)
  }

  // ----- The loop -----

  method ParseSharedArgv(tokens: seq<string>) returns (r: Result<ParsedSharedArgs, SharedArgError>)
    ensures r == Parse(SHARED, tokens)
  {
    var passthrough: seq<string> := [];
    var output: Slot<OutputMode> := None;
    var color: Slot<ColorMode> := None;
    var level: Slot<LogLevel> := None;

    var index := 0;
    while index < |tokens|
      invariant 0 <= index <= |tokens|
      invariant ParseFrom(SHARED, tokens, EMPTY) == ParseFrom(SHARED, tokens[index..], Acc(output, color, level, passthrough))
    {
      ghost var rest, acc := tokens[index..], Acc(output, color, level, passthrough);
      var token := tokens[index];
      if Classify(token).Terminator? {
        passthrough := passthrough + tokens[index..];
        return Ok(Finish(Acc(output, color, level, passthrough)));
      }
      var item :- ReadItem(SHARED, tokens[index..]);
      match item {
        case Pass(_) => passthrough := passthrough + [token];
        case Choose(ChooseOutput(v), spelling) => output :- SetExplicit(output, v, spelling, OutputField);
        case Choose(ChooseColor(v), spelling) => color :- SetExplicit(color, v, spelling, ColorField);
        case Choose(ChooseLogLevel(v), spelling) => level :- SetExplicit(level, v, spelling, LogLevelField);
      }
      assert Apply(acc, item) == Ok(Acc(output, color, level, passthrough));
      index := index + Width(SHARED, tokens[index..]);
      assert rest[Width(SHARED, rest)..] == tokens[index..];
    }

    r := Ok(Finish(Acc(output, color, level, passthrough)));
  }
}
