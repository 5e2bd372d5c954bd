/** Laws of the shared argv parser, over argv of any length. */
module SharedArgsLaws {
  import opened Prelude
  import opened Policy
  import opened SharedArgs

  // ----- Explicit choices, field by field -----

  function ChoiceOf(p: ParsedSharedArgs, field: Field): Option<Choice> {
    match field
    case OutputField => if p.explicitOutput then Some(ChooseOutput(p.policy.output)) else None
    case ColorField => if p.explicitColor then Some(ChooseColor(p.policy.color)) else None
    case LogLevelField => if p.explicitLogLevel then Some(ChooseLogLevel(p.policy.logLevel)) else None
  }

  /** No field is chosen differently by the two results. */
  predicate Agree(p: ParsedSharedArgs, q: ParsedSharedArgs) {
    forall field :: ChoiceOf(p, field).Some? && ChoiceOf(q, field).Some? ==> ChoiceOf(p, field) == ChoiceOf(q, field)
  }

  function Merge(p: ParsedSharedArgs, q: ParsedSharedArgs): ParsedSharedArgs {
    ParsedSharedArgs(
      CliPolicy(if p.explicitOutput then p.policy.output else q.policy.output,
                if p.explicitColor then p.policy.color else q.policy.color,
                if p.explicitLogLevel then p.policy.logLevel else q.policy.logLevel),
      p.passthrough + q.passthrough,
      p.explicitOutput || q.explicitOutput,
      p.explicitColor || q.explicitColor,
      p.explicitLogLevel || q.explicitLogLevel)
  }

  // ----- The homomorphism -----

  /** Whole options only: no effective `--`, and no option left waiting for its value. */
  predicate Whole(g: Grammar, a: seq<string>)
    decreases |a|
  {
    a == [] ||
    match g.classify(a[0])
    case Terminator => false
    case Split(_) => |a| >= 2 && Whole(g, a[2..])
    case _ => Whole(g, a[1..])
  }

  lemma WholeHead(g: Grammar, a: seq<string>, b: seq<string>)
    requires Whole(g, a) && a != []
    ensures Width(g, a + b) == Width(g, a) && ReadItem(g, a + b) == ReadItem(g, a)
    ensures Whole(g, a[Width(g, a)..]) && (a + b)[Width(g, a)..] == a[Width(g, a)..] + b
    ensures !g.classify(a[0]).Terminator? && (a + b)[0] == a[0]
  {
  }

  /** Parsing `a ++ b` is parsing `b` from where `a` left off, errors included. */
  lemma {:induction false} ParseInSequence(g: Grammar, a: seq<string>, b: seq<string>, acc: Acc)
    requires Whole(g, a)
    ensures ParseFrom(g, a + b, acc) == match ParseFrom(g, a, acc)
                                     case Ok(middle) => ParseFrom(g, b, middle)
                                     case Err(e) => Err(e)
    decreases |a|
  {
    if a == [] {
      assert a + b == b;
    } else {
      WholeHead(g, a, b);
      var item := ReadItem(g, a);
      if item.Ok? && Apply(acc, item.value).Ok? {
        ParseInSequence(g, a[Width(g, a)..], b, Apply(acc, item.value).value);
      }
    }
  }

  predicate SlotsAgree<T(==)>(x: Slot<T>, y: Slot<T>) {
    x.Some? && y.Some? ==> x.value.0 == y.value.0
  }

  predicate Compatible(x: Acc, y: Acc) {
    SlotsAgree(x.output, y.output) && SlotsAgree(x.color, y.color) && SlotsAgree(x.level, y.level)
  }

  function Join(x: Acc, y: Acc): Acc {
    Acc(if x.output.Some? then x.output else y.output,
        if x.color.Some? then x.color else y.color,
        if x.level.Some? then x.level else y.level,
        x.passthrough + y.passthrough)
  }

  /** One option, read on top of earlier choices `x` or without them. */
  lemma ApplyJoined(x: Acc, y: Acc, item: Item)
    requires Compatible(x, y)
    ensures Apply(Join(x, y), item).Ok? <==> Apply(y, item).Ok? && Compatible(x, Apply(y, item).value)
    ensures Apply(Join(x, y), item).Ok? ==> Apply(Join(x, y), item).value == Join(x, Apply(y, item).value)
  {
    match item {
      case Pass(token) => assert x.passthrough + y.passthrough + [token] == x.passthrough + (y.passthrough + [token]);
      case Choose(ChooseOutput(_), _) =>
      case Choose(ChooseColor(_), _) =>
      case Choose(ChooseLogLevel(_), _) =>
    }
  }

  /** Choices are never dropped: what clashes with the start clashes with the end. */
  lemma {:induction false} ClashPersists(g: Grammar, x: Acc, y: Acc, tokens: seq<string>)
    requires ParseFrom(g, tokens, y).Ok? && Compatible(x, ParseFrom(g, tokens, y).value)
    ensures Compatible(x, y)
    decreases |tokens|
  {
    if tokens != [] && !g.classify(tokens[0]).Terminator? {
      ClashPersists(g, x, Apply(y, ReadItem(g, tokens).value).value, tokens[Width(g, tokens)..]);
    }
  }

  lemma {:induction false} ParseJoined(g: Grammar, x: Acc, y: Acc, tokens: seq<string>)
    requires Compatible(x, y)
    ensures ParseFrom(g, tokens, Join(x, y)).Ok? <==>
            ParseFrom(g, tokens, y).Ok? && Compatible(x, ParseFrom(g, tokens, y).value)
    ensures ParseFrom(g, tokens, Join(x, y)).Ok? ==>
            ParseFrom(g, tokens, Join(x, y)).value == Join(x, ParseFrom(g, tokens, y).value)
    decreases |tokens|
  {
    if tokens == [] {
    } else if g.classify(tokens[0]).Terminator? {
      assert x.passthrough + y.passthrough + tokens == x.passthrough + (y.passthrough + tokens);
    } else if ReadItem(g, tokens).Ok? {
      var item, rest := ReadItem(g, tokens).value, tokens[Width(g, tokens)..];
      ApplyJoined(x, y, item);
      if Apply(y, item).Ok? {
        var next := Apply(y, item).value;
        if Compatible(x, next) {
          ParseJoined(g, x, next, rest);
        } else if ParseFrom(g, rest, next).Ok? && Compatible(x, ParseFrom(g, rest, next).value) {
          ClashPersists(g, x, next, rest);
        }
      }
    }
  }

  lemma FinishJoin(x: Acc, y: Acc)
    ensures Compatible(x, y) <==> Agree(Finish(x), Finish(y))
    ensures Finish(Join(x, y)) == Merge(Finish(x), Finish(y))
  {
    assert Agree(Finish(x), Finish(y)) ==> Compatible(x, y) by {
      if Agree(Finish(x), Finish(y)) {
        assert ChoiceOf(Finish(x), OutputField).Some? && ChoiceOf(Finish(y), OutputField).Some? ==>
               ChoiceOf(Finish(x), OutputField) == ChoiceOf(Finish(y), OutputField);
        assert ChoiceOf(Finish(x), ColorField).Some? && ChoiceOf(Finish(y), ColorField).Some? ==>
               ChoiceOf(Finish(x), ColorField) == ChoiceOf(Finish(y), ColorField);
        assert ChoiceOf(Finish(x), LogLevelField).Some? && ChoiceOf(Finish(y), LogLevelField).Some? ==>
               ChoiceOf(Finish(x), LogLevelField) == ChoiceOf(Finish(y), LogLevelField);
      }
    }
  }

  /** Parsing is a homomorphism: whole options in front merge with whatever follows, or clash with it. */
  lemma ParseIsHomomorphism(g: Grammar, a: seq<string>, b: seq<string>)
    requires Whole(g, a)
    ensures Parse(g, a + b).Ok? <==> Parse(g, a).Ok? && Parse(g, b).Ok? && Agree(Parse(g, a).value, Parse(g, b).value)
    ensures Parse(g, a + b).Ok? ==> Parse(g, a + b).value == Merge(Parse(g, a).value, Parse(g, b).value)
    ensures Parse(g, a).Err? ==> Parse(g, a + b) == Parse(g, a)
  {
    ParseInSequence(g, a, b, EMPTY);
    if ParseFrom(g, a, EMPTY).Ok? {
      var x := ParseFrom(g, a, EMPTY).value;
      assert Join(x, EMPTY) == x by {
        assert x.passthrough + [] == x.passthrough;
      }
      ParseJoined(g, x, EMPTY, b);
      if ParseFrom(g, b, EMPTY).Ok? {
        FinishJoin(x, ParseFrom(g, b, EMPTY).value);
      }
    }
  }

  // ----- Order of options does not matter -----

  type Outcome = Result<ParsedSharedArgs, SharedArgError>

  /** Merging the outcomes of parts, if they all succeeded and no two of them clash. */
  function Combine(parts: seq<Outcome>, tail: Outcome): Option<ParsedSharedArgs> {
    if parts == [] then (if tail.Ok? then Some(tail.value) else None)
    else match Combine(parts[1..], tail)
      case None => None
      case Some(q) => if parts[0].Ok? && Agree(parts[0].value, q) then Some(Merge(parts[0].value, q)) else None
  }

  /** Every part succeeds, and no two parts (the tail included) choose a field differently. */
  predicate PartsFit(parts: seq<Outcome>, tail: Outcome) {
    && tail.Ok?
    && (forall i :: 0 <= i < |parts| ==> parts[i].Ok? && Agree(parts[i].value, tail.value))
    && (forall i, j :: 0 <= i < |parts| && 0 <= j < |parts| ==> Agree(parts[i].value, parts[j].value))
  }

  predicate Chooses(part: Outcome, field: Field, choice: Choice) {
    part.Ok? && ChoiceOf(part.value, field) == Some(choice)
  }

  predicate SomePartChooses(parts: seq<Outcome>, tail: Outcome, field: Field, choice: Choice) {
    Chooses(tail, field, choice) || exists i :: 0 <= i < |parts| && Chooses(parts[i], field, choice)
  }

  lemma MergeChooses(p: ParsedSharedArgs, q: ParsedSharedArgs, field: Field)
    ensures ChoiceOf(Merge(p, q), field) == if ChoiceOf(p, field).Some? then ChoiceOf(p, field) else ChoiceOf(q, field)
  {
  }

  /** The combination exists exactly when the parts fit, and chooses exactly what they choose. */
  lemma {:induction false} CombineDecides(parts: seq<Outcome>, tail: Outcome)
    ensures Combine(parts, tail).Some? <==> PartsFit(parts, tail)
    ensures Combine(parts, tail).Some? ==> forall field, choice ::
              ChoiceOf(Combine(parts, tail).value, field) == Some(choice) <==>
              SomePartChooses(parts, tail, field, choice)
  {
    if parts != [] {
      var head, rest := parts[0], parts[1..];
      CombineDecides(rest, tail);
      if Combine(rest, tail).Some? && head.Ok? {
        HeadFits(head.value, rest, tail);
        CombineFitsHead(parts, tail);
        if Combine(parts, tail).Some? {
          forall field, choice
            ensures ChoiceOf(Combine(parts, tail).value, field) == Some(choice) <==>
                    SomePartChooses(parts, tail, field, choice)
          {
            HeadChooses(parts, tail, field, choice);
          }
        }
      } else if PartsFit(parts, tail) {
        assert PartsFit(rest, tail);
      }
    }
  }

  lemma CombineFitsHead(parts: seq<Outcome>, tail: Outcome)
    requires parts != [] && parts[0].Ok? && PartsFit(parts[1..], tail)
    ensures PartsFit(parts, tail) <==>
            && Agree(parts[0].value, tail.value)
            && forall i :: 0 <= i < |parts[1..]| ==> Agree(parts[0].value, parts[1..][i].value)
  {
    var head, rest := parts[0], parts[1..];
    if PartsFit(parts, tail) {
      forall i | 0 <= i < |rest| ensures Agree(head.value, rest[i].value) {
        assert rest[i] == parts[i + 1];
      }
    }
    if Agree(head.value, tail.value) && forall i :: 0 <= i < |rest| ==> Agree(head.value, rest[i].value) {
      forall i | 0 <= i < |parts| ensures parts[i].Ok? && Agree(parts[i].value, tail.value) {
        assert i > 0 ==> parts[i] == rest[i - 1];
      }
      forall i, j | 0 <= i < |parts| && 0 <= j < |parts| ensures Agree(parts[i].value, parts[j].value) {
        assert i > 0 ==> parts[i] == rest[i - 1];
        assert j > 0 ==> parts[j] == rest[j - 1];
      }
    }
  }

  lemma HeadChooses(parts: seq<Outcome>, tail: Outcome, field: Field, choice: Choice)
    requires parts != [] && Combine(parts, tail).Some?
    requires ChoiceOf(Combine(parts[1..], tail).value, field) == Some(choice) <==>
             SomePartChooses(parts[1..], tail, field, choice)
    ensures ChoiceOf(Combine(parts, tail).value, field) == Some(choice) <==>
            SomePartChooses(parts, tail, field, choice)
  {
    var p, q := parts[0].value, Combine(parts[1..], tail).value;
    MergeChooses(p, q, field);
    assert SomePartChooses(parts, tail, field, choice) <==>
           Chooses(parts[0], field, choice) || SomePartChooses(parts[1..], tail, field, choice) by {
      if i :| 0 <= i < |parts| && Chooses(parts[i], field, choice) {
        assert i > 0 ==> Chooses(parts[1..][i - 1], field, choice);
      }
      if i :| 0 <= i < |parts[1..]| && Chooses(parts[1..][i], field, choice) {
        assert Chooses(parts[i + 1], field, choice);
      }
    }
  }

  lemma HeadFits(h: ParsedSharedArgs, rest: seq<Outcome>, tail: Outcome)
    requires Combine(rest, tail).Some? && PartsFit(rest, tail)
    requires forall field, choice ::
               ChoiceOf(Combine(rest, tail).value, field) == Some(choice) <==>
               SomePartChooses(rest, tail, field, choice)
    ensures Agree(h, Combine(rest, tail).value) <==>
            && Agree(h, tail.value)
            && forall i :: 0 <= i < |rest| ==> Agree(h, rest[i].value)
  {
    var all := Combine(rest, tail).value;
    if Agree(h, all) {
      forall field | ChoiceOf(h, field).Some? && ChoiceOf(tail.value, field).Some?
        ensures ChoiceOf(h, field) == ChoiceOf(tail.value, field)
      {
        assert SomePartChooses(rest, tail, field, ChoiceOf(tail.value, field).value);
      }
      forall i | 0 <= i < |rest| ensures Agree(h, rest[i].value) {
        forall field | ChoiceOf(h, field).Some? && ChoiceOf(rest[i].value, field).Some?
          ensures ChoiceOf(h, field) == ChoiceOf(rest[i].value, field)
        {
          assert Chooses(rest[i], field, ChoiceOf(rest[i].value, field).value);
          assert SomePartChooses(rest, tail, field, ChoiceOf(rest[i].value, field).value);
        }
      }
    }
    if Agree(h, tail.value) && forall i :: 0 <= i < |rest| ==> Agree(h, rest[i].value) {
      forall field | ChoiceOf(h, field).Some? && ChoiceOf(all, field).Some?
        ensures ChoiceOf(h, field) == ChoiceOf(all, field)
      {
        assert SomePartChooses(rest, tail, field, ChoiceOf(all, field).value);
      }
    }
  }

  function Flatten(chunks: seq<seq<string>>): seq<string> {
    if chunks == [] then [] else chunks[0] + Flatten(chunks[1..])
  }

  predicate AllWhole(g: Grammar, chunks: seq<seq<string>>) {
    forall i :: 0 <= i < |chunks| ==> Whole(g, chunks[i])
  }

  function Outcomes(g: Grammar, chunks: seq<seq<string>>): (parts: seq<Outcome>)
    ensures |parts| == |chunks|
    ensures forall i :: 0 <= i < |chunks| ==> parts[i] == Parse(g, chunks[i])
  {
    seq(|chunks|, i requires 0 <= i < |chunks| => Parse(g, chunks[i]))
  }

  /** A command line of whole options and a tail means the combination of what its parts mean. */
  lemma {:induction false} ParseIsCombination(g: Grammar, chunks: seq<seq<string>>, tail: seq<string>)
    requires AllWhole(g, chunks)
    ensures var combined := Combine(Outcomes(g, chunks), Parse(g, tail));
            && (Parse(g, Flatten(chunks) + tail).Ok? <==> combined.Some?)
            && (combined.Some? ==> Parse(g, Flatten(chunks) + tail).value == combined.value)
  {
    if chunks == [] {
      assert Flatten(chunks) + tail == tail;
    } else {
      var head, rest := chunks[0], chunks[1..];
      ParseIsCombination(g, rest, tail);
      ParseIsHomomorphism(g, head, Flatten(rest) + tail);
      HeadCombines(g, chunks, tail);
    }
  }

  lemma HeadCombines(g: Grammar, chunks: seq<seq<string>>, tail: seq<string>)
    requires chunks != []
    ensures Flatten(chunks) + tail == chunks[0] + (Flatten(chunks[1..]) + tail)
    ensures Combine(Outcomes(g, chunks), Parse(g, tail))
            == match Combine(Outcomes(g, chunks[1..]), Parse(g, tail)) {
                 case None => None
                 case Some(q) =>
                   var p := Parse(g, chunks[0]);
                   if p.Ok? && Agree(p.value, q) then Some(Merge(p.value, q)) else None
               }
  {
    assert Outcomes(g, chunks)[1..] == Outcomes(g, chunks[1..]);
  }

  /** Fields nobody chose keep their default. */
  lemma UnchosenIsDefault(g: Grammar, tokens: seq<string>)
    requires Parse(g, tokens).Ok?
    ensures LeavesDefaults(Parse(g, tokens).value)
  {
  }

  predicate LeavesDefaults(p: ParsedSharedArgs) {
    && (!p.explicitOutput ==> p.policy.output == DEFAULT_POLICY.output)
    && (!p.explicitColor ==> p.policy.color == DEFAULT_POLICY.color)
    && (!p.explicitLogLevel ==> p.policy.logLevel == DEFAULT_POLICY.logLevel)
  }

  predicate SameChoices(p: ParsedSharedArgs, q: ParsedSharedArgs) {
    p == q.(passthrough := p.passthrough)
  }

  /** Success and choices of a combination depend only on which outcomes occur. */
  lemma CombineIgnoresOrder(parts: seq<Outcome>, permuted: seq<Outcome>, tail: Outcome)
    requires forall part :: part in parts <==> part in permuted
    ensures Combine(parts, tail).Some? <==> Combine(permuted, tail).Some?
    ensures Combine(parts, tail).Some? ==>
            forall field :: ChoiceOf(Combine(parts, tail).value, field) == ChoiceOf(Combine(permuted, tail).value, field)
  {
    CombineDecides(parts, tail);
    CombineDecides(permuted, tail);
    FitIgnoresOrder(parts, permuted, tail);
    FitIgnoresOrder(permuted, parts, tail);
    if Combine(parts, tail).Some? {
      var p, q := Combine(parts, tail).value, Combine(permuted, tail).value;
      forall field ensures ChoiceOf(p, field) == ChoiceOf(q, field) {
        if ChoiceOf(p, field).Some? {
          ChoosesIgnoresOrder(parts, permuted, tail, field, ChoiceOf(p, field).value);
          assert SomePartChooses(permuted, tail, field, ChoiceOf(p, field).value);
        } else if ChoiceOf(q, field).Some? {
          ChoosesIgnoresOrder(permuted, parts, tail, field, ChoiceOf(q, field).value);
          assert SomePartChooses(parts, tail, field, ChoiceOf(q, field).value);
        }
      }
    }
  }

  lemma FitIgnoresOrder(parts: seq<Outcome>, permuted: seq<Outcome>, tail: Outcome)
    requires forall part :: part in parts <==> part in permuted
    ensures PartsFit(parts, tail) ==> PartsFit(permuted, tail)
  {
    forall i | 0 <= i < |permuted| ensures permuted[i] in parts {
    }
  }

  lemma ChoosesIgnoresOrder(parts: seq<Outcome>, permuted: seq<Outcome>, tail: Outcome, field: Field, choice: Choice)
    requires forall part :: part in parts <==> part in permuted
    requires SomePartChooses(parts, tail, field, choice)
    ensures SomePartChooses(permuted, tail, field, choice)
  {
    if i :| 0 <= i < |parts| && Chooses(parts[i], field, choice) {
      assert parts[i] in permuted;
    }
  }

  lemma OutcomesIgnoreOrder(g: Grammar, chunks: seq<seq<string>>, permuted: seq<seq<string>>)
    requires multiset(chunks) == multiset(permuted)
    ensures forall part :: part in Outcomes(g, chunks) ==> part in Outcomes(g, permuted)
    ensures AllWhole(g, chunks) ==> AllWhole(g, permuted)
  {
    forall part | part in Outcomes(g, chunks) ensures part in Outcomes(g, permuted) {
      var i :| 0 <= i < |chunks| && Outcomes(g, chunks)[i] == part;
      assert chunks[i] in multiset(permuted);
      var j :| 0 <= j < |permuted| && permuted[j] == chunks[i];
      assert Outcomes(g, permuted)[j] == part;
    }
    forall i | AllWhole(g, chunks) && 0 <= i < |permuted| ensures Whole(g, permuted[i]) {
      assert permuted[i] in multiset(chunks);
    }
  }

  /** Reordering whole options in front of any tail changes neither success nor the policy. */
  lemma PermutingOptionsChangesNothing(g: Grammar, chunks: seq<seq<string>>, permuted: seq<seq<string>>, tail: seq<string>)
    requires AllWhole(g, chunks) && multiset(chunks) == multiset(permuted)
    ensures Parse(g, Flatten(chunks) + tail).Ok? <==> Parse(g, Flatten(permuted) + tail).Ok?
    ensures Parse(g, Flatten(chunks) + tail).Ok? ==>
            SameChoices(Parse(g, Flatten(chunks) + tail).value, Parse(g, Flatten(permuted) + tail).value)
  {
    OutcomesIgnoreOrder(g, chunks, permuted);
    OutcomesIgnoreOrder(g, permuted, chunks);
    ParseIsCombination(g, chunks, tail);
    ParseIsCombination(g, permuted, tail);
    CombineIgnoresOrder(Outcomes(g, chunks), Outcomes(g, permuted), Parse(g, tail));
    if Parse(g, Flatten(chunks) + tail).Ok? {
      UnchosenIsDefault(g, Flatten(chunks) + tail);
      UnchosenIsDefault(g, Flatten(permuted) + tail);
      SameChoicesByField(Parse(g, Flatten(chunks) + tail).value, Parse(g, Flatten(permuted) + tail).value);
    }
  }

  lemma SameChoicesByField(p: ParsedSharedArgs, q: ParsedSharedArgs)
    requires LeavesDefaults(p) && LeavesDefaults(q)
    requires forall field :: ChoiceOf(p, field) == ChoiceOf(q, field)
    ensures SameChoices(p, q)
  {
    assert ChoiceOf(p, OutputField) == ChoiceOf(q, OutputField);
    assert ChoiceOf(p, ColorField) == ChoiceOf(q, ColorField);
    assert ChoiceOf(p, LogLevelField) == ChoiceOf(q, LogLevelField);
  }

  // ----- Token conservation and idempotence -----

  function Untouched(passthrough: seq<string>): ParsedSharedArgs {
    ParsedSharedArgs(DEFAULT_POLICY, passthrough, false, false, false)
  }

  /** The elements of `tokens` whose mark equals `bit`, in order. */
  function Select<T>(tokens: seq<T>, marks: seq<bool>, bit: bool): seq<T>
    requires |marks| == |tokens|
  {
    if tokens == [] then []
    else (if marks[0] == bit then [tokens[0]] else []) + Select(tokens[1..], marks[1..], bit)
  }

  function Uniform(n: nat, bit: bool): seq<bool> {
    seq(n, _ => bit)
  }

  lemma {:induction false} SelectUniform<T>(tokens: seq<T>, bit: bool, other: bool)
    ensures Select(tokens, Uniform(|tokens|, bit), other) == if bit == other then tokens else []
  {
    if tokens != [] {
      assert Uniform(|tokens|, bit)[1..] == Uniform(|tokens[1..]|, bit);
      SelectUniform(tokens[1..], bit, other);
    }
  }

  lemma SelectHead<T>(s: seq<T>, marks: seq<bool>, rest: seq<T>, restMarks: seq<bool>, bit: bool)
    requires |marks| == |s| && |restMarks| == |rest| && s != [] && s == [s[0]] + rest && marks == [marks[0]] + restMarks
    ensures Select(s, marks, bit) == (if marks[0] == bit then [s[0]] else []) + Select(rest, restMarks, bit)
  {
    assert s[1..] == rest && marks[1..] == restMarks;
  }

  lemma {:induction false} SelectConcat<T>(a: seq<T>, ma: seq<bool>, b: seq<T>, mb: seq<bool>, bit: bool)
    requires |a| == |ma| && |b| == |mb|
    ensures Select(a + b, ma + mb, bit) == Select(a, ma, bit) + Select(b, mb, bit)
  {
    if a == [] {
      assert a + b == b && ma + mb == mb;
    } else {
      var head := if ma[0] == bit then [a[0]] else [];
      SelectConcat(a[1..], ma[1..], b, mb, bit);
      SelectHead(a + b, ma + mb, a[1..] + b, ma[1..] + mb, bit);
      assert head + (Select(a[1..], ma[1..], bit) + Select(b, mb, bit)) == head + Select(a[1..], ma[1..], bit) + Select(b, mb, bit);
    }
  }

  /** Which tokens the parser hands on. */
  function Kept(g: Grammar, tokens: seq<string>): (marks: seq<bool>)
    ensures |marks| == |tokens|
    decreases |tokens|
  {
    if tokens == [] then []
    else if g.classify(tokens[0]).Terminator? then Uniform(|tokens|, true)
    else Uniform(Width(g, tokens), g.classify(tokens[0]).Unowned?) + Kept(g, tokens[Width(g, tokens)..])
  }

  /** The part of argv the parser consumed and the part it handed on, each parsed alone. */
  predicate SplitsCleanly(g: Grammar, tokens: seq<string>, marks: seq<bool>, p: ParsedSharedArgs)
    requires |marks| == |tokens|
  {
    var kept, used := Select(tokens, marks, true), Select(tokens, marks, false);
    && Whole(g, used)
    && (p.passthrough, Parse(g, kept), Parse(g, used)) == (kept, Ok(Untouched(kept)), Ok(p.(passthrough := [])))
  }

  /** A single option, complete with its value. */
  predicate IsOption(g: Grammar, head: seq<string>) {
    && head != [] && |head| == Width(g, head)
    && !g.classify(head[0]).Terminator?
    && ReadItem(g, head).Ok?
  }

  lemma OptionAlone(g: Grammar, head: seq<string>, acc: Acc)
    requires IsOption(g, head)
    ensures Whole(g, head)
    ensures ParseFrom(g, head, acc) == Apply(acc, ReadItem(g, head).value)
  {
    assert head[Width(g, head)..] == [];
  }

  /** An unowned token alone is untouched; any other option alone hands nothing on. */
  lemma OptionIsPassedOrConsumed(g: Grammar, head: seq<string>)
    requires IsOption(g, head)
    ensures Whole(g, head)
    ensures g.classify(head[0]).Unowned? ==> Parse(g, head) == Ok(Untouched(head))
    ensures !g.classify(head[0]).Unowned? ==> Parse(g, head).Ok? && Parse(g, head).value.passthrough == []
  {
    OptionAlone(g, head, EMPTY);
    if g.classify(head[0]).Unowned? {
      assert head == [head[0]] && EMPTY.passthrough + [head[0]] == head;
    }
  }

  lemma HeadIsOption(g: Grammar, tokens: seq<string>)
    requires tokens != [] && !g.classify(tokens[0]).Terminator? && ReadItem(g, tokens).Ok?
    ensures IsOption(g, tokens[..Width(g, tokens)])
    ensures tokens[..Width(g, tokens)] + tokens[Width(g, tokens)..] == tokens
  {
  }

  lemma PassHead(g: Grammar, head: seq<string>, rest: seq<string>, marks: seq<bool>)
    requires Whole(g, head) && Parse(g, head) == Ok(Untouched(head))
    requires Parse(g, rest).Ok? && |marks| == |rest| && SplitsCleanly(g, rest, marks, Parse(g, rest).value)
    requires Parse(g, head + rest).Ok?
    ensures SplitsCleanly(g, head + rest, Uniform(|head|, true) + marks, Parse(g, head + rest).value)
  {
    ParseIsHomomorphism(g, head, rest);
    SelectUniform(head, true, true);
    SelectUniform(head, true, false);
    SelectConcat(head, Uniform(|head|, true), rest, marks, true);
    SelectConcat(head, Uniform(|head|, true), rest, marks, false);
    assert [] + Select(rest, marks, false) == Select(rest, marks, false);
    ParseIsHomomorphism(g, head, Parse(g, rest).value.passthrough);
  }

  lemma ConsumeHead(g: Grammar, head: seq<string>, rest: seq<string>, marks: seq<bool>)
    requires Whole(g, head) && Parse(g, head).Ok? && Parse(g, head).value.passthrough == []
    requires Parse(g, rest).Ok? && |marks| == |rest| && SplitsCleanly(g, rest, marks, Parse(g, rest).value)
    requires Parse(g, head + rest).Ok?
    ensures SplitsCleanly(g, head + rest, Uniform(|head|, false) + marks, Parse(g, head + rest).value)
  {
    var used := Select(rest, marks, false);
    ParseIsHomomorphism(g, head, rest);
    SelectUniform(head, false, true);
    SelectUniform(head, false, false);
    SelectConcat(head, Uniform(|head|, false), rest, marks, true);
    SelectConcat(head, Uniform(|head|, false), rest, marks, false);
    assert [] + Select(rest, marks, true) == Select(rest, marks, true);
    ParseIsHomomorphism(g, head, used);
    WholeConcat(g, head, used);
    MergeWithoutPassthrough(Parse(g, head).value, Parse(g, rest).value);
  }

  lemma MergeWithoutPassthrough(p: ParsedSharedArgs, q: ParsedSharedArgs)
    requires p.passthrough == []
    ensures Merge(p, q.(passthrough := [])) == Merge(p, q).(passthrough := [])
    ensures Merge(p, q).passthrough == q.passthrough
    ensures Agree(p, q) <==> Agree(p, q.(passthrough := []))
  {
    assert forall field :: ChoiceOf(q, field) == ChoiceOf(q.(passthrough := []), field);
  }

  lemma {:induction false} WholeConcat(g: Grammar, a: seq<string>, b: seq<string>)
    requires Whole(g, a) && Whole(g, b)
    ensures Whole(g, a + b)
    decreases |a|
  {
    if a == [] {
      assert a + b == b;
    } else {
      WholeHead(g, a, b);
      WholeConcat(g, a[Width(g, a)..], b);
    }
  }

  /** When argv parses, its first option parses alone, and so does the rest. */
  lemma HeadParses(g: Grammar, tokens: seq<string>)
    requires tokens != [] && !g.classify(tokens[0]).Terminator? && Parse(g, tokens).Ok?
    ensures var head, rest := tokens[..Width(g, tokens)], tokens[Width(g, tokens)..];
            && head + rest == tokens && Whole(g, head)
            && Parse(g, rest).Ok?
            && (if g.classify(tokens[0]).Unowned? then Parse(g, head) == Ok(Untouched(head))
                else Parse(g, head).Ok? && Parse(g, head).value.passthrough == [])
  {
    var head, rest := tokens[..Width(g, tokens)], tokens[Width(g, tokens)..];
    HeadIsOption(g, tokens);
    OptionIsPassedOrConsumed(g, head);
    ParseIsHomomorphism(g, head, rest);
  }

  lemma SuffixAlone(g: Grammar, suffix: seq<string>)
    requires suffix != [] && g.classify(suffix[0]).Terminator?
    ensures Parse(g, suffix) == Ok(Untouched(suffix))
  {
    assert EMPTY.passthrough + suffix == suffix;
    assert ParseFrom(g, suffix, EMPTY) == Ok(EMPTY.(passthrough := suffix));
  }

  /** Dropping the terminator from the passthrough, as some documents have it, is what happens only when there is none. */
  lemma TerminatorIsDroppedIffAbsent(g: Grammar, options: seq<string>, suffix: seq<string>)
    requires Whole(g, options) && Parse(g, options).Ok?
    requires suffix != [] ==> g.classify(suffix[0]).Terminator?
    ensures Parse(g, options + suffix).Ok?
    ensures Parse(g, options + suffix).value.passthrough
            == Parse(g, options).value.passthrough + (if suffix == [] then [] else suffix[1..])
            <==> suffix == []
  {
    var passed := Parse(g, options).value.passthrough;
    if suffix == [] {
      assert options + suffix == options && passed + [] == passed;
    } else {
      TerminatorSuffixIsVerbatim(g, options, suffix);
      assert |passed + suffix| != |passed + suffix[1..]|;
    }
  }

  lemma TerminatedSplitsCleanly(g: Grammar, tokens: seq<string>)
    requires tokens != [] && g.classify(tokens[0]).Terminator?
    ensures SplitsCleanly(g, tokens, Kept(g, tokens), Untouched(tokens))
  {
    SuffixAlone(g, tokens);
    SelectUniform(tokens, true, true);
    SelectUniform(tokens, true, false);
  }

  lemma HeadSplitsCleanly(g: Grammar, tokens: seq<string>)
    requires tokens != [] && !g.classify(tokens[0]).Terminator? && Parse(g, tokens).Ok?
    requires var rest := tokens[Width(g, tokens)..];
             Parse(g, rest).Ok? && SplitsCleanly(g, rest, Kept(g, rest), Parse(g, rest).value)
    ensures SplitsCleanly(g, tokens, Kept(g, tokens), Parse(g, tokens).value)
  {
    var head, rest := tokens[..Width(g, tokens)], tokens[Width(g, tokens)..];
    HeadParses(g, tokens);
    if g.classify(tokens[0]).Unowned? {
      PassHead(g, head, rest, Kept(g, rest));
    } else {
      ConsumeHead(g, head, rest, Kept(g, rest));
    }
  }

  /**
   On success argv is an order-preserving merge of the passthrough and the consumed options: the
   consumed options alone give the same policy and hand nothing on, and the passthrough alone is
   handed on as it is, with nothing explicit (so parsing is idempotent).
   */
  lemma {:induction false} ParsingConservesTokens(g: Grammar, tokens: seq<string>)
    requires Parse(g, tokens).Ok?
    ensures SplitsCleanly(g, tokens, Kept(g, tokens), Parse(g, tokens).value)
    decreases |tokens|
  {
    if tokens == [] {
    } else if g.classify(tokens[0]).Terminator? {
      TerminatedSplitsCleanly(g, tokens);
      SuffixAlone(g, tokens);
    } else {
      HeadParses(g, tokens);
      ParsingConservesTokens(g, tokens[Width(g, tokens)..]);
      HeadSplitsCleanly(g, tokens);
    }
  }

  /** Everything from the effective terminator on is handed on verbatim. */
  lemma TerminatorSuffixIsVerbatim(g: Grammar, options: seq<string>, suffix: seq<string>)
    requires Whole(g, options) && Parse(g, options).Ok?
    requires suffix != [] && g.classify(suffix[0]).Terminator?
    ensures Parse(g, options + suffix)
            == Ok(Parse(g, options).value.(passthrough := Parse(g, options).value.passthrough + suffix))
  {
    SuffixAlone(g, suffix);
    ParseIsHomomorphism(g, options, suffix);
    UnchosenIsDefault(g, options);
  }

  // ----- Rendering round trip -----

  function RenderOutput(policy: CliPolicy): string {
    "--output=" + OutputName(policy.output)
  }

  function RenderColor(policy: CliPolicy): string {
    "--color=" + ColorName(policy.color)
  }

  function RenderLogLevel(policy: CliPolicy): string {
    "--log-level=" + LogLevelName(policy.logLevel)
  }

  function Render(policy: CliPolicy): seq<string> {
    [RenderOutput(policy), RenderColor(policy), RenderLogLevel(policy)]
  }

  lemma InlineColorClassifies(value: string)
    ensures Classify("--color=" + value) == Inline(ColorField, value)
  {
    var token := "--color=" + value;
    assert token[8..] == value;
    assert token[2] == 'c';
  }

  lemma InlineOutputClassifies(value: string)
    ensures Classify("--output=" + value) == Inline(OutputField, value)
  {
    var token := "--output=" + value;
    assert token[9..] == value;
    assert token[2] == 'o' && "--color="[2] == 'c';
  }

  lemma InlineLogLevelClassifies(value: string)
    ensures Classify("--log-level=" + value) == Inline(LogLevelField, value)
  {
    var token := "--log-level=" + value;
    assert token[12..] == value;
    assert token[2] == 'l' && "--color="[2] == 'c' && "--output="[2] == 'o';
  }

  function OnlyChoice(choice: Choice): ParsedSharedArgs {
    match choice
    case ChooseOutput(v) => Untouched([]).(policy := DEFAULT_POLICY.(output := v), explicitOutput := true)
    case ChooseColor(v) => Untouched([]).(policy := DEFAULT_POLICY.(color := v), explicitColor := true)
    case ChooseLogLevel(v) => Untouched([]).(policy := DEFAULT_POLICY.(logLevel := v), explicitLogLevel := true)
  }

  /** A single inline option chooses its field and nothing else. */
  lemma InlineAlone(g: Grammar, token: string, choice: Choice)
    requires g.classify(token).Inline?
    requires g.readInline(g.classify(token).field, g.classify(token).value) == Ok(choice)
    ensures Whole(g, [token])
    ensures Parse(g, [token]) == Ok(OnlyChoice(choice))
  {
    OptionAlone(g, [token], EMPTY);
  }

  lemma ThreeChoices(g: Grammar, o: seq<string>, c: seq<string>, l: seq<string>, policy: CliPolicy, list: seq<string>)
    requires Whole(g, o) && Parse(g, o) == Ok(OnlyChoice(ChooseOutput(policy.output)))
    requires Whole(g, c) && Parse(g, c) == Ok(OnlyChoice(ChooseColor(policy.color)))
    requires Whole(g, l) && Parse(g, l) == Ok(OnlyChoice(ChooseLogLevel(policy.logLevel)))
    requires Parse(g, list) == Ok(Untouched(list))
    ensures Parse(g, o + (c + (l + list))) == Ok(ParsedSharedArgs(policy, list, true, true, true))
  {
    ParseIsHomomorphism(g, l, list);
    assert [] + list == list;
    ParseIsHomomorphism(g, c, l + list);
    ParseIsHomomorphism(g, o, c + (l + list));
  }

  lemma RenderedOptions(g: Grammar, policy: CliPolicy, list: seq<string>)
    requires g.classify(RenderOutput(policy)) == Inline(OutputField, OutputName(policy.output))
    requires g.classify(RenderColor(policy)) == Inline(ColorField, ColorName(policy.color))
    requires g.classify(RenderLogLevel(policy)) == Inline(LogLevelField, LogLevelName(policy.logLevel))
    requires g.readInline(OutputField, OutputName(policy.output)) == Ok(ChooseOutput(policy.output))
    requires g.readInline(ColorField, ColorName(policy.color)) == Ok(ChooseColor(policy.color))
    requires g.readInline(LogLevelField, LogLevelName(policy.logLevel)) == Ok(ChooseLogLevel(policy.logLevel))
    requires Parse(g, list) == Ok(Untouched(list))
    ensures Parse(g, Render(policy) + list) == Ok(ParsedSharedArgs(policy, list, true, true, true))
  {
    var o, c, l := [RenderOutput(policy)], [RenderColor(policy)], [RenderLogLevel(policy)];
    InlineAlone(g, o[0], ChooseOutput(policy.output));
    InlineAlone(g, c[0], ChooseColor(policy.color));
    InlineAlone(g, l[0], ChooseLogLevel(policy.logLevel));
    ThreeChoices(g, o, c, l, policy, list);
    assert Render(policy) + list == o + (c + (l + list));
  }

  lemma RenderedClassify(policy: CliPolicy)
    ensures SHARED.classify(RenderOutput(policy)) == Inline(OutputField, OutputName(policy.output))
    ensures SHARED.classify(RenderColor(policy)) == Inline(ColorField, ColorName(policy.color))
    ensures SHARED.classify(RenderLogLevel(policy)) == Inline(LogLevelField, LogLevelName(policy.logLevel))
  {
    InlineOutputClassifies(OutputName(policy.output));
    InlineColorClassifies(ColorName(policy.color));
    InlineLogLevelClassifies(LogLevelName(policy.logLevel));
  }

  lemma RenderedOutputReads(mode: OutputMode)
    ensures SHARED.readInline(OutputField, OutputName(mode)) == Ok(ChooseOutput(mode))
  {
    OutputRoundTrips(mode);
  }

  lemma RenderedColorReads(mode: ColorMode)
    ensures SHARED.readInline(ColorField, ColorName(mode)) == Ok(ChooseColor(mode))
  {
    ColorRoundTrips(mode);
  }

  lemma RenderedLogLevelReads(level: LogLevel)
    ensures SHARED.readInline(LogLevelField, LogLevelName(level)) == Ok(ChooseLogLevel(level))
  {
    LogLevelRoundTrips(level);
  }

  /** Any policy, rendered in canonical spelling before a list the parser does not own, parses back exactly. */
  lemma RenderedPolicyRoundTrips(policy: CliPolicy, list: seq<string>)
    requires Parse(SHARED, list) == Ok(Untouched(list))
    ensures Parse(SHARED, Render(policy) + list) == Ok(ParsedSharedArgs(policy, list, true, true, true))
  {
    RenderedClassify(policy);
    RenderedOutputReads(policy.output);
    RenderedColorReads(policy.color);
    RenderedLogLevelReads(policy.logLevel);
    RenderedOptions(SHARED, policy, list);
  }

  // ----- Spellings that mean the same -----

  /** A value in a token of its own means the inline spelling, errors included, wherever the option stands. */
  lemma SplitMeansInline(g: Grammar, a: seq<string>, flag: string, inline: string, field: Field, value: string, rest: seq<string>)
    requires Whole(g, a)
    requires g.classify(flag) == Split(field) && g.classify(inline) == Inline(field, value)
    requires g.readInline(field, value) == g.readNext(field, value)
    ensures Parse(g, a + ([flag, value] + rest)) == Parse(g, a + ([inline] + rest))
  {
    var split, joined := [flag, value] + rest, [inline] + rest;
    assert split[2..] == rest && joined[1..] == rest;
    assert ReadItem(g, split) == ReadItem(g, joined);
    ParseInSequence(g, a, split, EMPTY);
    ParseInSequence(g, a, joined, EMPTY);
  }

  lemma SharedSplitMeansInline(a: seq<string>, value: string, rest: seq<string>)
    requires Whole(SHARED, a)
    ensures Parse(SHARED, a + (["--output", value] + rest)) == Parse(SHARED, a + (["--output=" + value] + rest))
    ensures Parse(SHARED, a + (["--log-level", value] + rest)) == Parse(SHARED, a + (["--log-level=" + value] + rest))
  {
    InlineOutputClassifies(value);
    InlineLogLevelClassifies(value);
    SplitNames();
    SplitMeansInline(SHARED, a, "--output", "--output=" + value, OutputField, value, rest);
    SplitMeansInline(SHARED, a, "--log-level", "--log-level=" + value, LogLevelField, value, rest);
  }

  lemma SplitNames()
    ensures SHARED.classify("--output") == Split(OutputField)
    ensures SHARED.classify("--log-level") == Split(LogLevelField)
  {
    assert "--output"[2] == 'o' && "--log-level"[2] == 'l';
    assert |"--output"| == 8 && |"--log-level"| == 11;
  }

  /** An option left without its value at the end of argv is reported by name. */
  lemma DanglingOptionIsMissingValue(g: Grammar, a: seq<string>, flag: string, field: Field)
    requires Whole(g, a) && Parse(g, a).Ok? && g.classify(flag) == Split(field)
    ensures Parse(g, a + [flag]) == Err(MissingValue(FlagName(field)))
  {
    ParseInSequence(g, a, [flag], EMPTY);
  }

  /** The shorthands, and the choices they are documented to stand for. */
  const SHORTHANDS: seq<(string, Choice)> := [
    ("--color", ChooseColor(Always)), ("--no-color", ChooseColor(Never)), ("--!color", ChooseColor(Never)),
    ("--json", ChooseOutput(Json)), ("--no-json", ChooseOutput(Human)), ("--!json", ChooseOutput(Human)),
    ("--quiet", ChooseLogLevel(Quiet)), ("--silent", ChooseLogLevel(Silent))]

  function Canonical(choice: Choice): string {
    match choice
    case ChooseOutput(v) => "--output=" + OutputName(v)
    case ChooseColor(v) => "--color=" + ColorName(v)
    case ChooseLogLevel(v) => "--log-level=" + LogLevelName(v)
  }

  lemma CanonicalAlone(choice: Choice)
    ensures Parse(SHARED, [Canonical(choice)]) == Ok(OnlyChoice(choice))
    ensures Whole(SHARED, [Canonical(choice)])
  {
    match choice {
      case ChooseOutput(v) =>
        InlineOutputClassifies(OutputName(v));
        RenderedOutputReads(v);
      case ChooseColor(v) =>
        InlineColorClassifies(ColorName(v));
        RenderedColorReads(v);
      case ChooseLogLevel(v) =>
        InlineLogLevelClassifies(LogLevelName(v));
        RenderedLogLevelReads(v);
    }
    InlineAlone(SHARED, Canonical(choice), choice);
  }

  /** The third characters tell the options apart that have a common length. */
  lemma ThirdCharacters()
    ensures "--color="[2] == 'c' && "--output="[2] == 'o' && "--log-level="[2] == 'l'
    ensures "--color"[2] == 'c' && "--no-color"[2] == 'n' && "--!color"[2] == '!'
    ensures "--json"[2] == 'j' && "--no-json"[2] == 'n' && "--!json"[2] == '!'
    ensures "--quiet"[2] == 'q' && "--silent"[2] == 's'
  {
  }

  lemma ShorthandIsFlag(i: nat)
    requires i < |SHORTHANDS|
    ensures SHARED.classify(SHORTHANDS[i].0) == Flag(SHORTHANDS[i].1)
  {
    ThirdCharacters();
    var token := SHORTHANDS[i].0;
    match i {
      case 0 => assert token == "--color" && |token| == 7;
      case 1 => assert token == "--no-color" && |token| == 10;
      case 2 => assert token == "--!color" && |token| == 8;
      case 3 => assert token == "--json" && |token| == 6;
      case 4 => assert token == "--no-json" && |token| == 9;
      case 5 => assert token == "--!json" && |token| == 7;
      case 6 => assert token == "--quiet" && |token| == 7;
      case _ => assert token == "--silent" && |token| == 8;
    }
  }

  lemma FlagAlone(g: Grammar, token: string, choice: Choice)
    requires g.classify(token) == Flag(choice)
    ensures Parse(g, [token]) == Ok(OnlyChoice(choice)) && Whole(g, [token])
  {
    OptionAlone(g, [token], EMPTY);
  }

  /** Writing a shorthand for its canonical option, anywhere in argv, changes neither success nor the result. */
  lemma ShorthandMeansCanonical(a: seq<string>, i: nat, rest: seq<string>)
    requires Whole(SHARED, a) && i < |SHORTHANDS|
    ensures var short := Parse(SHARED, a + ([SHORTHANDS[i].0] + rest));
            var long := Parse(SHARED, a + ([Canonical(SHORTHANDS[i].1)] + rest));
            && (short.Ok? <==> long.Ok?)
            && (short.Ok? ==> short == long)
  {
    var (token, choice) := SHORTHANDS[i];
    ShorthandIsFlag(i);
    FlagAlone(SHARED, token, choice);
    CanonicalAlone(choice);
    SameMeaning(SHARED, a, [token], [Canonical(choice)], rest);
  }

  lemma SameMeaning(g: Grammar, a: seq<string>, x: seq<string>, y: seq<string>, rest: seq<string>)
    requires Whole(g, a) && Whole(g, x) && Whole(g, y) && Parse(g, x) == Parse(g, y)
    ensures Parse(g, a + (x + rest)).Ok? <==> Parse(g, a + (y + rest)).Ok?
    ensures Parse(g, a + (x + rest)).Ok? ==> Parse(g, a + (x + rest)) == Parse(g, a + (y + rest))
  {
    ParseIsHomomorphism(g, x, rest);
    ParseIsHomomorphism(g, y, rest);
    ParseIsHomomorphism(g, a, x + rest);
    ParseIsHomomorphism(g, a, y + rest);
  }

  /** When both parts parse, only a contradiction between them can make the whole fail. */
  lemma OnlyContradictionsFail(g: Grammar, a: seq<string>, b: seq<string>)
    requires Whole(g, a) && Parse(g, a).Ok? && Parse(g, b).Ok? && Parse(g, a + b).Err?
    ensures Parse(g, a + b).error.Conflict?
  {
    ParseInSequence(g, a, b, EMPTY);
    FailureIsConflict(g, ParseFrom(g, a, EMPTY).value, EMPTY, b);
  }

  lemma {:induction false} FailureIsConflict(g: Grammar, x: Acc, y: Acc, tokens: seq<string>)
    requires ParseFrom(g, tokens, x).Err? && ParseFrom(g, tokens, y).Ok?
    ensures ParseFrom(g, tokens, x).error.Conflict?
    decreases |tokens|
  {
    var item := ReadItem(g, tokens).value;
    if Apply(x, item).Ok? {
      FailureIsConflict(g, Apply(x, item).value, Apply(y, item).value, tokens[Width(g, tokens)..]);
    }
  }

  /** `--json -- --no-json payload`: the terminator itself is handed on. */
  lemma TerminatorStaysInPassthrough()
    ensures Parse(SHARED, ["--json", "--", "--no-json", "payload"])
            == Ok(OnlyChoice(ChooseOutput(Json)).(passthrough := ["--", "--no-json", "payload"]))
  {
    var options, suffix := ["--json"], ["--", "--no-json", "payload"];
    ShorthandIsFlag(3);
    FlagAlone(SHARED, "--json", ChooseOutput(Json));
    TerminatorSuffixIsVerbatim(SHARED, options, suffix);
    assert options + suffix == ["--json", "--", "--no-json", "payload"];
    assert [] + suffix == suffix;
  }
}
