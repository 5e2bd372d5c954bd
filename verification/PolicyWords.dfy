/** The values the shared options accept, word by word, and what every other value comes to. */
module PolicyWords {
  import opened Prelude
  import opened Text
  import opened TextLaws
  import opened Policy
  import opened SharedArgs
  import opened SharedArgsLaws

  /** The documented words for each choice. */
  function WordsFor(choice: Choice): seq<string> {
    match choice
    case ChooseOutput(AutoOutput) => ["auto"]
    case ChooseOutput(Human) => ["human", "plain", "text"]
    case ChooseOutput(Json) => ["json", "ndjson", "structured"]
    case ChooseColor(AutoColor) => ["auto"]
    case ChooseColor(Always) => ["always", "on", "true", "yes", "1"]
    case ChooseColor(Never) => ["never", "off", "false", "no", "0"]
    case ChooseLogLevel(Silent) => ["silent", "off", "none"]
    case ChooseLogLevel(Quiet) => ["quiet"]
    case ChooseLogLevel(Error) => ["error", "err"]
    case ChooseLogLevel(Warn) => ["warn", "warning"]
    case ChooseLogLevel(Info) => ["info"]
    case ChooseLogLevel(Debug) => ["debug"]
    case ChooseLogLevel(Trace) => ["trace"]
  }

  function FieldOf(choice: Choice): Field {
    match choice
    case ChooseOutput(_) => OutputField
    case ChooseColor(_) => ColorField
    case ChooseLogLevel(_) => LogLevelField
  }

  /** The option of each field as it is typed. */
  function OptionText(field: Field): string {
    match field
    case OutputField => "--output"
    case ColorField => "--color"
    case LogLevelField => "--log-level"
  }

  // ----- Words -----

  lemma OutputWords(word: string, mode: OutputMode)
    ensures OutputOfWord(word) == Some(mode) <==> word in WordsFor(ChooseOutput(mode))
  {
    match mode {
      case AutoOutput =>
      case Human =>
      case Json =>
    }
  }

  lemma ColorWords(word: string, mode: ColorMode)
    ensures ColorOfWord(word) == Some(mode) <==> word in WordsFor(ChooseColor(mode))
  {
    match mode {
      case AutoColor =>
      case Always =>
      case Never =>
    }
  }

  lemma LogLevelWords(word: string, level: LogLevel)
    ensures LogLevelOfWord(word) == Some(level) <==> word in WordsFor(ChooseLogLevel(level))
  {
    match level {
      case Silent =>
      case Quiet =>
      case Error =>
      case Warn =>
      case Info =>
      case Debug =>
      case Trace =>
    }
  }

  lemma ListedIsWord(choice: Choice, word: string)
    requires word in WordsFor(choice)
    ensures IsWord(word)
  {
    match choice {
      case ChooseOutput(_) =>
      case ChooseColor(mode) => ColorIsWord(mode, word);
      case ChooseLogLevel(level) => LogLevelIsWord(level, word);
    }
  }

  lemma ColorIsWord(mode: ColorMode, word: string)
    requires word in WordsFor(ChooseColor(mode))
    ensures IsWord(word)
  {
    match mode {
      case AutoColor =>
      case Always =>
      case Never =>
    }
  }

  lemma LogLevelIsWord(level: LogLevel, word: string)
    requires word in WordsFor(ChooseLogLevel(level))
    ensures IsWord(word)
  {
    match level {
      case Silent =>
      case Quiet =>
      case Error =>
      case Warn =>
      case Info =>
      case Debug =>
      case Trace =>
    }
  }

  // ----- Values -----

  /** The value is one of the words for the choice, in any ASCII case, with any blanks around it. */
  ghost predicate Means(value: string, choice: Choice) {
    exists word :: word in WordsFor(choice) && IsSpelling(value, word)
  }

  /** A value reads as a choice exactly when it spells one of its words; nothing else reads at all. */
  lemma ReadsIff(value: string, choice: Choice)
    ensures ReadValue(FieldOf(choice), value) == Ok(choice) <==> Means(value, choice)
  {
    var word := ToAsciiLower(Trim(value));
    match choice {
      case ChooseOutput(mode) => OutputWords(word, mode);
      case ChooseColor(mode) => ColorWords(word, mode);
      case ChooseLogLevel(level) => LogLevelWords(word, level);
    }
    forall listed | listed in WordsFor(choice) ensures IsSpelling(value, listed) <==> word == listed {
      ListedIsWord(choice, listed);
      SpellingIff(value, listed);
    }
  }

  lemma UnreadIsInvalid(field: Field, value: string)
    ensures ReadValue(field, value).Ok? ==> FieldOf(ReadValue(field, value).value) == field
    ensures ReadValue(field, value).Err? ==> IsInvalid(ReadValue(field, value), field, value)
  {
    match field {
      case OutputField =>
      case ColorField =>
      case LogLevelField =>
    }
  }

  /** The value is refused under the name of its option. */
  predicate IsInvalid<T>(r: Result<T, SharedArgError>, field: Field, value: string) {
    r.Err? && r.error.InvalidValue? && (r.error.flag, r.error.value) == (OptionText(field), value)
  }

  /** No word of the field spells the value. */
  ghost predicate MeansNothing(value: string, field: Field) {
    forall choice :: FieldOf(choice) == field ==> !Means(value, choice)
  }

  // ----- On the command line -----

  /** An option with its value attached, `--field=value`. */
  function Attached(field: Field, value: string): string {
    OptionText(field) + "=" + value
  }

  lemma AttachedClassifies(field: Field, value: string)
    ensures SHARED.classify(Attached(field, value)) == Inline(field, value)
  {
    match field {
      case OutputField =>
        InlineOutputClassifies(value);
        assert "--output" + "=" == "--output=";
      case ColorField =>
        InlineColorClassifies(value);
        assert "--color" + "=" == "--color=";
      case LogLevelField =>
        InlineLogLevelClassifies(value);
        assert "--log-level" + "=" == "--log-level=";
    }
  }

  lemma DetachedMeansAttached(a: seq<string>, field: Field, value: string, rest: seq<string>)
    requires Whole(SHARED, a) && field != ColorField
    ensures Parse(SHARED, a + ([OptionText(field), value] + rest)) == Parse(SHARED, a + ([Attached(field, value)] + rest))
  {
    SplitNames();
    AttachedClassifies(field, value);
    SplitMeansInline(SHARED, a, OptionText(field), Attached(field, value), field, value, rest);
  }

  /**
   Any spelling of any word of a choice, attached to its option or (where the option takes one) in a token
   of its own, anywhere after whole options, can be replaced by the canonical option without changing
   success or result.
   */
  lemma AnySpellingMeansCanonical(a: seq<string>, choice: Choice, value: string, rest: seq<string>)
    requires Whole(SHARED, a) && Means(value, choice)
    ensures var short := Parse(SHARED, a + ([Attached(FieldOf(choice), value)] + rest));
            var long := Parse(SHARED, a + ([Canonical(choice)] + rest));
            && (short.Ok? <==> long.Ok?)
            && (short.Ok? ==> short == long)
            && (FieldOf(choice) != ColorField ==>
                  Parse(SHARED, a + ([OptionText(FieldOf(choice)), value] + rest)) == short)
  {
    var token := Attached(FieldOf(choice), value);
    ReadsIff(value, choice);
    AttachedClassifies(FieldOf(choice), value);
    InlineAlone(SHARED, token, choice);
    CanonicalAlone(choice);
    SameMeaning(SHARED, a, [token], [Canonical(choice)], rest);
    if FieldOf(choice) != ColorField {
      DetachedMeansAttached(a, FieldOf(choice), value, rest);
    }
  }

  /** Every other value is refused, by name and as it was typed, wherever the option stands. */
  lemma OtherValuesAreInvalid(a: seq<string>, field: Field, value: string, rest: seq<string>)
    requires Whole(SHARED, a) && Parse(SHARED, a).Ok? && MeansNothing(value, field)
    ensures IsInvalid(Parse(SHARED, a + ([Attached(field, value)] + rest)), field, value)
    ensures field != ColorField ==> IsInvalid(Parse(SHARED, a + ([OptionText(field), value] + rest)), field, value)
  {
    var r := ReadValue(field, value);
    UnreadIsInvalid(field, value);
    if r.Ok? {
      ReadsIff(value, r.value);
      assert false;
    }
    AttachedClassifies(field, value);
    RefusedValue(SHARED, a, Attached(field, value), rest);
    if field != ColorField {
      DetachedMeansAttached(a, field, value, rest);
    }
  }

  /** A value the grammar does not read ends parsing with the reader's error. */
  lemma RefusedValue(g: Grammar, a: seq<string>, token: string, rest: seq<string>)
    requires Whole(g, a) && Parse(g, a).Ok? && g.classify(token).Inline?
    requires g.readInline(g.classify(token).field, g.classify(token).value).Err?
    ensures Parse(g, a + ([token] + rest)) == Err(g.readInline(g.classify(token).field, g.classify(token).value).error)
  {
    ParseInSequence(g, a, [token] + rest, EMPTY);
  }

  /** Nothing on the command line leaves every field at its default, which is automatic, automatic and info. */
  lemma NothingChosenIsDefault()
    ensures Parse(SHARED, []) == Ok(ParsedSharedArgs(CliPolicy(AutoOutput, AutoColor, Info), [], false, false, false))
  {
  }

  // ----- Contradictions -----

  function SlotOf(acc: Acc, field: Field): Slot<Choice> {
    match field
    case OutputField => if acc.output.Some? then Some((ChooseOutput(acc.output.value.0), acc.output.value.1)) else None
    case ColorField => if acc.color.Some? then Some((ChooseColor(acc.color.value.0), acc.color.value.1)) else None
    case LogLevelField => if acc.level.Some? then Some((ChooseLogLevel(acc.level.value.0), acc.level.value.1)) else None
  }

  /** A field once chosen keeps its first choice and its first spelling. */
  lemma {:induction false} FirstSpellingStays(g: Grammar, acc: Acc, tokens: seq<string>, field: Field)
    requires SlotOf(acc, field).Some? && ParseFrom(g, tokens, acc).Ok?
    ensures SlotOf(ParseFrom(g, tokens, acc).value, field) == SlotOf(acc, field)
    decreases |tokens|
  {
    if tokens != [] && !g.classify(tokens[0]).Terminator? {
      var item := ReadItem(g, tokens).value;
      ApplyKeepsSlot(acc, item, field);
      FirstSpellingStays(g, Apply(acc, item).value, tokens[Width(g, tokens)..], field);
    }
  }

  lemma ApplyKeepsSlot(acc: Acc, item: Item, field: Field)
    requires SlotOf(acc, field).Some? && Apply(acc, item).Ok?
    ensures SlotOf(Apply(acc, item).value, field) == SlotOf(acc, field)
  {
    match item {
      case Pass(_) =>
      case Choose(ChooseOutput(_), _) =>
      case Choose(ChooseColor(_), _) =>
      case Choose(ChooseLogLevel(_), _) =>
    }
  }

  lemma ContradictingItem(acc: Acc, choice: Choice, spelling: string)
    requires SlotOf(acc, FieldOf(choice)).Some? && SlotOf(acc, FieldOf(choice)).value.0 != choice
    ensures Apply(acc, Choose(choice, spelling)) == Err(Conflict(FieldOf(choice), SlotOf(acc, FieldOf(choice)).value.1, spelling))
  {
    match choice {
      case ChooseOutput(_) =>
      case ChooseColor(_) =>
      case ChooseLogLevel(_) =>
    }
  }

  /**
   Two contradictory options, with any whole options between them that agree with the first: the error
   names the field, what the first was spelled as, and what the second was.
   */
  lemma ContradictionIsReported(first: Choice, firstValue: string, between: seq<string>, second: Choice, secondValue: string, rest: seq<string>)
    requires Means(firstValue, first) && Means(secondValue, second) && FieldOf(first) == FieldOf(second) && first != second
    requires var before := [Attached(FieldOf(first), firstValue)] + between;
             Whole(SHARED, between) && Parse(SHARED, before).Ok?
    ensures Parse(SHARED, [Attached(FieldOf(first), firstValue)] + between + ([Attached(FieldOf(first), secondValue)] + rest))
            == Err(Conflict(FieldOf(first), firstValue, secondValue))
  {
    var field := FieldOf(first);
    ReadsIff(firstValue, first);
    ReadsIff(secondValue, second);
    AttachedClassifies(field, firstValue);
    AttachedClassifies(field, secondValue);
    ContradictionIn(SHARED, Attached(field, firstValue), first, between, Attached(field, secondValue), second, rest);
  }

  lemma ContradictionIn(g: Grammar, x: string, first: Choice, between: seq<string>, y: string, second: Choice, rest: seq<string>)
    requires g.classify(x).Inline? && g.readInline(g.classify(x).field, g.classify(x).value) == Ok(first)
    requires g.classify(y).Inline? && g.readInline(g.classify(y).field, g.classify(y).value) == Ok(second)
    requires FieldOf(first) == FieldOf(second) && first != second
    requires Whole(g, between) && Parse(g, [x] + between).Ok?
    ensures Parse(g, [x] + between + ([y] + rest)) == Err(Conflict(FieldOf(first), g.classify(x).value, g.classify(y).value))
  {
    InlineAlone(g, x, first);
    WholeConcat(g, [x], between);
    var one := Apply(EMPTY, Choose(first, g.classify(x).value)).value;
    OptionAlone(g, [x], EMPTY);
    ParseInSequence(g, [x], between, EMPTY);
    FirstSpellingStays(g, one, between, FieldOf(first));
    var acc := ParseFrom(g, [x] + between, EMPTY).value;
    ParseInSequence(g, [x] + between, [y] + rest, EMPTY);
    ContradictingItem(acc, second, g.classify(y).value);
  }

  /** The canonical option is the one with the first word listed for its choice. */
  lemma CanonicalIsFirstWord(choice: Choice)
    ensures Canonical(choice) == Attached(FieldOf(choice), WordsFor(choice)[0])
  {
    assert "--output" + "=" == "--output=" && "--color" + "=" == "--color=" && "--log-level" + "=" == "--log-level=";
    match choice {
      case ChooseOutput(_) =>
      case ChooseColor(_) =>
      case ChooseLogLevel(_) =>
    }
  }
}
