/** The reserved-token wrapper of reserved.rs, against a direct parser. */
module Reserved {
  // Reserved tokens are renamed to indexed sentinels, the shared parser runs on the renamed argv,
  // and sentinels that reach the passthrough are renamed back. The meaning of this is a direct
  // parser that hands reserved tokens on and refuses them as values.

  import opened Prelude
  import opened Text
  import opened Policy
  import opened SharedArgs
  import opened SharedArgsLaws

  const SENTINEL_PREFIX: string := "\0ores-clis-core-reserved:"

  function Sentinel(index: nat): string {
    SENTINEL_PREFIX + Decimal(index)
  }

  /** Different positions get different sentinels. */
  lemma SentinelInjective(i: nat, j: nat)
    requires Sentinel(i) == Sentinel(j)
    ensures i == j
  {
    assert Sentinel(i)[|SENTINEL_PREFIX|..] == Decimal(i);
    assert Sentinel(j)[|SENTINEL_PREFIX|..] == Decimal(j);
    DecimalRoundTrip(i);
    DecimalRoundTrip(j);
  }

  // ----- The transformation -----

  function Protect(tokens: seq<string>, reserved: set<string>, base: nat): (p: seq<string>)
    ensures |p| == |tokens|
    ensures forall i :: 0 <= i < |tokens| ==> p[i] == if tokens[i] in reserved then Sentinel(base + i) else tokens[i]
  {
    seq(|tokens|, i requires 0 <= i < |tokens| => if tokens[i] in reserved then Sentinel(base + i) else tokens[i])
  }

  function Originals(tokens: seq<string>, reserved: set<string>, base: nat): map<string, string> {
    if tokens == [] then map[]
    else if tokens[0] in reserved then Originals(tokens[1..], reserved, base + 1)[Sentinel(base) := tokens[0]]
    else Originals(tokens[1..], reserved, base + 1)
  }

  /** Each sentinel is renamed back at most once. */
  function Restore(passthrough: seq<string>, originals: map<string, string>): seq<string>
    decreases |passthrough|
  {
    if passthrough == [] then []
    else if passthrough[0] in originals then
      [originals[passthrough[0]]] + Restore(passthrough[1..], originals - {passthrough[0]})
    else [passthrough[0]] + Restore(passthrough[1..], originals)
  }

  /** Rename, parse with `g`, rename back. */
  function WrappedBy(g: Grammar, tokens: seq<string>, reserved: set<string>): Result<ParsedSharedArgs, SharedArgError> {
    match Parse(g, Protect(tokens, reserved, 0))
    case Ok(p) => Ok(p.(passthrough := Restore(p.passthrough, Originals(tokens, reserved, 0))))
    case Err(e) => Err(e)
  }

  function Wrapped(tokens: seq<string>, reserved: set<string>): Result<ParsedSharedArgs, SharedArgError> {
    WrappedBy(SHARED, tokens, reserved)
  }

  // ----- The loops -----

  lemma {:induction false} OriginalsHas(tokens: seq<string>, reserved: set<string>, base: nat, i: nat)
    requires i < |tokens| && tokens[i] in reserved
    ensures var m := Originals(tokens, reserved, base);
            Sentinel(base + i) in m && m[Sentinel(base + i)] == tokens[i]
    decreases |tokens|
  {
    if i > 0 {
      OriginalsHas(tokens[1..], reserved, base + 1, i - 1);
      if Sentinel(base + i) == Sentinel(base) {
        SentinelInjective(base + i, base);
      }
    }
  }

  lemma {:induction false} OriginalsOnly(tokens: seq<string>, reserved: set<string>, base: nat, key: string)
    requires key in Originals(tokens, reserved, base)
    ensures exists i :: 0 <= i < |tokens| && tokens[i] in reserved && key == Sentinel(base + i)
    decreases |tokens|
  {
    if tokens[0] in reserved && key == Sentinel(base) {
      assert key == Sentinel(base + 0);
    } else {
      OriginalsOnly(tokens[1..], reserved, base + 1, key);
      var i :| 0 <= i < |tokens[1..]| && tokens[1..][i] in reserved && key == Sentinel(base + 1 + i);
      assert tokens[i + 1] in reserved && key == Sentinel(base + (i + 1));
    }
  }

  lemma {:induction false} OriginalsAppend(tokens: seq<string>, token: string, reserved: set<string>, base: nat)
    ensures Originals(tokens + [token], reserved, base)
            == if token in reserved then Originals(tokens, reserved, base)[Sentinel(base + |tokens|) := token]
               else Originals(tokens, reserved, base)
    decreases |tokens|
  {
    if tokens == [] {
      assert (tokens + [token])[1..] == [];
    } else {
      assert (tokens + [token])[1..] == tokens[1..] + [token];
      OriginalsAppend(tokens[1..], token, reserved, base + 1);
      if tokens[0] in reserved && token in reserved && Sentinel(base) == Sentinel(base + |tokens|) {
        SentinelInjective(base, base + |tokens|);
      }
    }
  }

  lemma RenameStep(tokens: seq<string>, reserved: set<string>, index: nat)
    requires index < |tokens|
    ensures Originals(tokens[..index + 1], reserved, 0)
            == if tokens[index] in reserved then Originals(tokens[..index], reserved, 0)[Sentinel(index) := tokens[index]]
               else Originals(tokens[..index], reserved, 0)
    ensures Protect(tokens[..index + 1], reserved, 0)
            == Protect(tokens[..index], reserved, 0) + [if tokens[index] in reserved then Sentinel(index) else tokens[index]]
  {
    assert tokens[..index + 1] == tokens[..index] + [tokens[index]];
    OriginalsAppend(tokens[..index], tokens[index], reserved, 0);
  }

  /** Rewrites reserved tokens to sentinels and remembers what they stood for. */
  method RenameReserved(tokens: seq<string>, reserved: set<string>)
    returns (protected: seq<string>, originals: map<string, string>)
    ensures protected == Protect(tokens, reserved, 0)
    ensures originals == Originals(tokens, reserved, 0)
  {
    originals := map[];
    protected := [];
    for index := 0 to |tokens|
      invariant originals == Originals(tokens[..index], reserved, 0)
      invariant protected == Protect(tokens[..index], reserved, 0)
    {
      RenameStep(tokens, reserved, index);
      if tokens[index] in reserved {
        var sentinel := Sentinel(index);
        originals := originals[sentinel := tokens[index]];
        protected := protected + [sentinel];
      } else {
        protected := protected + [tokens[index]];
      }
    }
    assert tokens[..|tokens|] == tokens;
  }

  /** Replaces sentinels in place, forgetting each one as it is used. */
  method RestoreReserved(parsed: seq<string>, originals: map<string, string>) returns (passthrough: seq<string>)
    ensures passthrough == Restore(parsed, originals)
  {
    passthrough := parsed;
    var remaining := originals;
    for i := 0 to |passthrough|
      invariant |passthrough| == |parsed|
      invariant passthrough[i..] == parsed[i..]
      invariant Restore(parsed, originals) == passthrough[..i] + Restore(parsed[i..], remaining)
    {
      ghost var rest := parsed[i..];
      assert rest[0] == passthrough[i] && rest[1..] == parsed[i + 1..];
      var token := passthrough[i];
      if token in remaining {
        passthrough := passthrough[i := remaining[token]];
        remaining := remaining - {token};
      }
      assert passthrough[..i + 1] == passthrough[..i] + [passthrough[i]];
    }
    assert passthrough[..|passthrough|] == passthrough;
  }

  method ParseSharedArgvWithReserved(tokens: seq<string>, reservedTokens: seq<string>)
    returns (r: Result<ParsedSharedArgs, SharedArgError>)
    ensures r == Wrapped(tokens, (set t | t in reservedTokens) - {"--"})
  {
    var reserved := (set t | t in reservedTokens) - {"--"};
    if reserved == {} {
      NothingReserved(tokens);
      r := ParseSharedArgv(tokens);
      return;
    }
    var protected, originals := RenameReserved(tokens, reserved);
    var parsed :- ParseSharedArgv(protected);
    var passthrough := RestoreReserved(parsed.passthrough, originals);
    r := Ok(parsed.(passthrough := passthrough));
  }

  lemma NothingReserved(tokens: seq<string>)
    ensures Wrapped(tokens, {}) == Parse(SHARED, tokens)
  {
    assert Protect(tokens, {}, 0) == tokens;
    EmptyOriginals(tokens, 0);
    if Parse(SHARED, tokens).Ok? {
      RestoreNothing(Parse(SHARED, tokens).value.passthrough);
    }
  }

  lemma {:induction false} EmptyOriginals(tokens: seq<string>, base: nat)
    ensures Originals(tokens, {}, base) == map[]
    decreases |tokens|
  {
    if tokens != [] {
      EmptyOriginals(tokens[1..], base + 1);
    }
  }

  lemma {:induction false} RestoreNothing(passthrough: seq<string>)
    ensures Restore(passthrough, map[]) == passthrough
  {
    if passthrough != [] {
      RestoreNothing(passthrough[1..]);
    }
  }

  // ----- The direct parser it stands for -----

  const RESERVED_VALUE := ParsePolicyError("reserved", "", "a token the consumer has not reserved")

  function ReadUnreserved(g: Grammar, reserved: set<string>, field: Field, value: string): Result<Choice, SharedArgError> {
    if value in reserved then Err(InvalidValue(FlagName(field), value, RESERVED_VALUE)) else g.readNext(field, value)
  }

  /** Reserved tokens pass at option position and are refused at value position; all else is as in `g`. */
  function Direct(g: Grammar, reserved: set<string>): Grammar {
    Grammar(token => if token in reserved then Unowned else g.classify(token),
            g.readInline,
            (field, value) => ReadUnreserved(g, reserved, field, value))
  }

  /** A grammar that neither owns a sentinel nor accepts one as a value. */
  ghost predicate IgnoresSentinels(g: Grammar) {
    && (forall i: nat :: g.classify(Sentinel(i)) == Unowned)
    && (forall field, i: nat :: RefusesSentinel(g.readNext(field, Sentinel(i)), field, i))
    && (forall field, value :: !SaysReserved(g.readNext(field, value)) && !SaysReserved(g.readInline(field, value)))
  }

  /** The refusal only the direct parser gives. */
  predicate IsReservedValue(e: SharedArgError) {
    e.InvalidValue? && e.cause == RESERVED_VALUE
  }

  predicate SaysReserved(r: Result<Choice, SharedArgError>) {
    r.Err? && IsReservedValue(r.error)
  }

  predicate RefusesSentinel(r: Result<Choice, SharedArgError>, field: Field, i: nat) {
    r.Err? && r.error.InvalidValue? && r.error.flag == FlagName(field) && r.error.value == Sentinel(i)
  }

  lemma SharedIgnoresSentinels()
    ensures IgnoresSentinels(SHARED)
  {
    forall i: nat ensures SHARED.classify(Sentinel(i)) == Unowned {
      SentinelIsUnowned(i);
    }
    forall field, i: nat ensures RefusesSentinel(SHARED.readNext(field, Sentinel(i)), field, i) {
      SentinelIsNoValue(field, i);
    }
    forall field, value ensures !SaysReserved(SHARED.readNext(field, value)) && !SaysReserved(SHARED.readInline(field, value)) {
      SharedNeverSaysReserved(field, value);
    }
  }

  lemma SharedNeverSaysReserved(field: Field, value: string)
    ensures !SaysReserved(ReadValue(field, value))
  {
    assert |"reserved"| == 8 && |"output"| == 6 && |"color"| == 5 && |"log-level"| == 9;
    match field {
      case OutputField =>
      case ColorField =>
      case LogLevelField =>
    }
  }

  lemma SentinelIsUnowned(index: nat)
    ensures Classify(Sentinel(index)) == Unowned
  {
    assert Sentinel(index)[0] == '\0';
    assert "--color="[0] == '-' && "--output="[0] == '-' && "--log-level="[0] == '-';
  }

  lemma SentinelIsNoValue(field: Field, index: nat)
    ensures RefusesSentinel(ReadValue(field, Sentinel(index)), field, index)
  {
    assert Sentinel(index)[0] == '\0';
    ForeignStartIsRefused(Sentinel(index));
  }

  /** The wrapper reports the same error, except that a refused reserved value is shown as its sentinel. */
  predicate ErrorsMatch(wrapped: SharedArgError, direct: SharedArgError, tokens: seq<string>, reserved: set<string>, base: nat) {
    if IsReservedValue(direct) then
      exists i :: 0 <= i < |tokens| && tokens[i] in reserved && ShowsSentinel(wrapped, direct, tokens[i], base + i)
    else wrapped == direct
  }

  /** The same flag is blamed; the direct parser shows `token` where the wrapper shows the sentinel of `index`. */
  predicate ShowsSentinel(wrapped: SharedArgError, direct: SharedArgError, token: string, index: nat) {
    && IsReservedValue(direct) && direct.value == token
    && wrapped.InvalidValue? && !IsReservedValue(wrapped)
    && wrapped.flag == direct.flag && wrapped.value == Sentinel(index)
  }

  predicate SameSlots(x: Acc, y: Acc) {
    (x.output, x.color, x.level) == (y.output, y.color, y.level)
  }

  predicate ItemsMatch(wrapped: Result<Item, SharedArgError>, direct: Result<Item, SharedArgError>,
                       tokens: seq<string>, reserved: set<string>, base: nat)
  {
    match (wrapped, direct)
    case (Ok(a), Ok(b)) => a == b || (a.Pass? && b.Pass?)
    case (Err(a), Err(b)) => ErrorsMatch(a, b, tokens, reserved, base)
    case _ => false
  }

  /** At the head of argv the two parsers do the same. */
  predicate HeadMatches(s: Grammar, g: Grammar, tokens: seq<string>, reserved: set<string>, base: nat)
    requires tokens != []
  {
    var protected := Protect(tokens, reserved, base);
    && s.classify(protected[0]) == g.classify(tokens[0])
    && (g.classify(tokens[0]).Terminator? ==> tokens[0] !in reserved)
    && (tokens[0] in reserved ==> g.classify(tokens[0]).Unowned?)
    && (ReadItem(g, tokens).Ok? && Width(g, tokens) == 2 ==> tokens[1] !in reserved)
    && ItemsMatch(ReadItem(s, protected), ReadItem(g, tokens), tokens, reserved, base)
  }

  ghost predicate InStep(s: Grammar, g: Grammar, reserved: set<string>) {
    forall tokens: seq<string>, base: nat :: tokens != [] ==> HeadMatches(s, g, tokens, reserved, base)
  }

  lemma DirectInStep(g: Grammar, reserved: set<string>)
    requires IgnoresSentinels(g)
    ensures InStep(g, Direct(g, reserved), reserved)
  {
    forall tokens: seq<string>, base: nat | tokens != []
      ensures HeadMatches(g, Direct(g, reserved), tokens, reserved, base)
    {
      HeadsMatch(g, tokens, reserved, base);
    }
  }

  lemma HeadsMatch(g: Grammar, tokens: seq<string>, reserved: set<string>, base: nat)
    requires IgnoresSentinels(g) && tokens != []
    ensures HeadMatches(g, Direct(g, reserved), tokens, reserved, base)
  {
    var d := Direct(g, reserved);
    assert g.classify(Sentinel(base)) == Unowned;
    match d.classify(tokens[0]) {
      case Split(field) => if |tokens| > 1 { ValuesMatch(g, field, tokens, reserved, base); }
      case Inline(field, value) =>
      case Flag(_) =>
      case Unowned =>
      case Terminator =>
    }
  }

  predicate ValueMatches(s: Grammar, g: Grammar, field: Field, tokens: seq<string>, reserved: set<string>, base: nat)
    requires |tokens| > 1
  {
    var w, d := s.readNext(field, Protect(tokens, reserved, base)[1]), g.readNext(field, tokens[1]);
    && (w.Ok? <==> d.Ok?)
    && (w.Ok? ==> w == d && tokens[1] !in reserved)
    && (w.Err? ==> ErrorsMatch(w.error, d.error, tokens, reserved, base))
  }

  lemma ValuesMatch(g: Grammar, field: Field, tokens: seq<string>, reserved: set<string>, base: nat)
    requires IgnoresSentinels(g) && |tokens| > 1
    ensures ValueMatches(g, Direct(g, reserved), field, tokens, reserved, base)
  {
    if tokens[1] in reserved {
      assert RefusesSentinel(g.readNext(field, Sentinel(base + 1)), field, base + 1);
    }
  }

  lemma ApplyInStep(x: Acc, y: Acc, a: Item, b: Item)
    requires SameSlots(x, y) && (a == b || (a.Pass? && b.Pass?))
    ensures Apply(x, a).Ok? <==> Apply(y, b).Ok?
    ensures Apply(x, a).Ok? ==> SameSlots(Apply(x, a).value, Apply(y, b).value)
    ensures Apply(x, a).Err? ==> Apply(x, a).error == Apply(y, b).error
  {
  }

  lemma ErrorsMatchInSuffix(w: SharedArgError, d: SharedArgError, tokens: seq<string>, reserved: set<string>, base: nat, n: nat)
    requires n <= |tokens| && ErrorsMatch(w, d, tokens[n..], reserved, base + n)
    ensures ErrorsMatch(w, d, tokens, reserved, base)
  {
    if IsReservedValue(d) {
      var i :| 0 <= i < |tokens[n..]| && tokens[n..][i] in reserved && ShowsSentinel(w, d, tokens[n..][i], base + n + i);
      var j := n + i;
      assert tokens[j] in reserved && ShowsSentinel(w, d, tokens[j], base + j);
    }
  }

  lemma ProtectSuffix(tokens: seq<string>, reserved: set<string>, base: nat, n: nat)
    requires n <= |tokens|
    ensures Protect(tokens, reserved, base)[n..] == Protect(tokens[n..], reserved, base + n)
  {
  }

  /** The two parsers, run in step. */
  lemma {:induction false} Simulation(s: Grammar, g: Grammar, tokens: seq<string>, reserved: set<string>, base: nat, x: Acc, y: Acc)
    requires InStep(s, g, reserved) && SameSlots(x, y)
    ensures var w := ParseFrom(s, Protect(tokens, reserved, base), x);
            var d := ParseFrom(g, tokens, y);
            && (w.Ok? <==> d.Ok?)
            && (w.Ok? ==> SameSlots(w.value, d.value))
            && (w.Err? ==> ErrorsMatch(w.error, d.error, tokens, reserved, base))
    decreases |tokens|
  {
    if tokens != [] {
      var protected := Protect(tokens, reserved, base);
      assert HeadMatches(s, g, tokens, reserved, base);
      var n := Width(g, tokens);
      if !g.classify(tokens[0]).Terminator? && ReadItem(g, tokens).Ok? {
        var a, b := ReadItem(s, protected).value, ReadItem(g, tokens).value;
        ApplyInStep(x, y, a, b);
        if Apply(y, b).Ok? {
          ProtectSuffix(tokens, reserved, base, n);
          Simulation(s, g, tokens[n..], reserved, base + n, Apply(x, a).value, Apply(y, b).value);
          if ParseFrom(g, tokens[n..], Apply(y, b).value).Err? {
            ErrorsMatchInSuffix(ParseFrom(s, protected[n..], Apply(x, a).value).error,
                                ParseFrom(g, tokens[n..], Apply(y, b).value).error, tokens, reserved, base, n);
          }
        }
      }
    }
  }

  /** Both parsers hand on the same positions. */
  lemma {:induction false} SameKept(s: Grammar, g: Grammar, tokens: seq<string>, reserved: set<string>, base: nat)
    requires InStep(s, g, reserved)
    ensures Kept(s, Protect(tokens, reserved, base)) == Kept(g, tokens)
    decreases |tokens|
  {
    if tokens != [] {
      assert HeadMatches(s, g, tokens, reserved, base);
      if !g.classify(tokens[0]).Terminator? {
        var n := Width(g, tokens);
        ProtectSuffix(tokens, reserved, base, n);
        SameKept(s, g, tokens[n..], reserved, base + n);
      }
    }
  }

  predicate KeepsReserved(tokens: seq<string>, marks: seq<bool>, reserved: set<string>)
    requires |tokens| == |marks|
  {
    forall i :: 0 <= i < |tokens| && tokens[i] in reserved ==> marks[i]
  }

  /** On success no reserved token was consumed. */
  lemma {:induction false} ReservedAreKept(s: Grammar, g: Grammar, tokens: seq<string>, reserved: set<string>, acc: Acc)
    requires InStep(s, g, reserved) && ParseFrom(g, tokens, acc).Ok?
    ensures KeepsReserved(tokens, Kept(g, tokens), reserved)
    decreases |tokens|
  {
    if tokens != [] && !g.classify(tokens[0]).Terminator? {
      assert HeadMatches(s, g, tokens, reserved, 0);
      var n := Width(g, tokens);
      var rest := tokens[n..];
      ReservedAreKept(s, g, rest, reserved, Apply(acc, ReadItem(g, tokens).value).value);
      forall i | 0 <= i < |tokens| && tokens[i] in reserved ensures Kept(g, tokens)[i] {
        if i >= n {
          assert rest[i - n] == tokens[i];
        }
      }
    }
  }

  // ----- When renaming back restores argv -----

  /** A token the consumer did not reserve that is spelled like the sentinel of a later reserved token. */
  predicate CollidesAt(tokens: seq<string>, reserved: set<string>, base: nat, k: nat)
    requires k < |tokens|
  {
    tokens[k] !in reserved && exists i :: k < i < |tokens| && tokens[i] in reserved && tokens[k] == Sentinel(base + i)
  }

  predicate EarlyCollision(tokens: seq<string>, reserved: set<string>, base: nat) {
    exists k: nat :: k < |tokens| && CollidesAt(tokens, reserved, base, k)
  }

  lemma CollisionSplits(tokens: seq<string>, reserved: set<string>, base: nat)
    requires tokens != []
    ensures EarlyCollision(tokens, reserved, base) <==>
            CollidesAt(tokens, reserved, base, 0) || EarlyCollision(tokens[1..], reserved, base + 1)
  {
    var rest := tokens[1..];
    if k: nat :| k < |tokens| && CollidesAt(tokens, reserved, base, k) {
      if k > 0 {
        var i :| k < i < |tokens| && tokens[i] in reserved && tokens[k] == Sentinel(base + i);
        assert rest[i - 1] in reserved && rest[k - 1] == Sentinel(base + 1 + (i - 1));
        assert CollidesAt(rest, reserved, base + 1, k - 1);
      }
    }
    var next := base + 1;
    if k: nat :| k < |rest| && CollidesAt(rest, reserved, next, k) {
      var i :| k < i < |rest| && rest[i] in reserved && rest[k] == Sentinel(base + 1 + i);
      assert tokens[i + 1] in reserved && tokens[k + 1] == Sentinel(base + (i + 1));
      assert CollidesAt(tokens, reserved, base, k + 1);
    }
  }

  /** An unreserved head is mistaken for a sentinel exactly when it collides. */
  lemma HeadMistaken(tokens: seq<string>, reserved: set<string>, base: nat)
    requires tokens != [] && tokens[0] !in reserved
    ensures tokens[0] in Originals(tokens, reserved, base) <==> CollidesAt(tokens, reserved, base, 0)
    ensures tokens[0] in Originals(tokens, reserved, base) ==> Originals(tokens, reserved, base)[tokens[0]] in reserved
  {
    if tokens[0] in Originals(tokens, reserved, base) {
      OriginalsOnly(tokens, reserved, base, tokens[0]);
      var i :| 0 <= i < |tokens| && tokens[i] in reserved && tokens[0] == Sentinel(base + i);
      assert i > 0;
      OriginalsHas(tokens, reserved, base, i);
    }
    if i :| 0 < i < |tokens| && tokens[i] in reserved && tokens[0] == Sentinel(base + i) {
      OriginalsHas(tokens, reserved, base, i);
    }
  }

  lemma RestReservesOwnSentinels(tokens: seq<string>, reserved: set<string>, base: nat)
    requires tokens != [] && tokens[0] in reserved
    ensures Originals(tokens, reserved, base) - {Sentinel(base)} == Originals(tokens[1..], reserved, base + 1)
  {
    var rest := Originals(tokens[1..], reserved, base + 1);
    if Sentinel(base) in rest {
      OriginalsOnly(tokens[1..], reserved, base + 1, Sentinel(base));
      var i :| 0 <= i < |tokens[1..]| && tokens[1..][i] in reserved && Sentinel(base) == Sentinel(base + 1 + i);
      SentinelInjective(base, base + 1 + i);
    }
  }

  predicate KeepsCollisions(tokens: seq<string>, marks: seq<bool>, reserved: set<string>, base: nat)
    requires |tokens| == |marks|
  {
    forall k: nat :: k < |tokens| && CollidesAt(tokens, reserved, base, k) ==> marks[k]
  }

  /** Renaming back what was kept gives the tokens that were kept. */
  predicate Restores(tokens: seq<string>, marks: seq<bool>, reserved: set<string>, base: nat)
    requires |marks| == |tokens|
  {
    Restore(Select(Protect(tokens, reserved, base), marks, true), Originals(tokens, reserved, base))
    == Select(tokens, marks, true)
  }

  lemma ReservedHead(tokens: seq<string>, marks: seq<bool>, reserved: set<string>, base: nat)
    requires tokens != [] && |marks| == |tokens| && tokens[0] in reserved && marks[0]
    ensures Restores(tokens, marks, reserved, base) <==> Restores(tokens[1..], marks[1..], reserved, base + 1)
  {
    var protected := Protect(tokens, reserved, base);
    ProtectSuffix(tokens, reserved, base, 1);
    RestReservesOwnSentinels(tokens, reserved, base);
    var kept, original := Select(protected[1..], marks[1..], true), Select(tokens[1..], marks[1..], true);
    assert Select(protected, marks, true) == [Sentinel(base)] + kept;
    assert ([Sentinel(base)] + kept)[1..] == kept;
    assert forall rest: seq<string> :: ([tokens[0]] + rest)[1..] == rest;
  }

  lemma MistakenHead(tokens: seq<string>, marks: seq<bool>, reserved: set<string>, base: nat)
    requires tokens != [] && |marks| == |tokens| && marks[0] && CollidesAt(tokens, reserved, base, 0)
    ensures !Restores(tokens, marks, reserved, base)
  {
    var protected := Protect(tokens, reserved, base);
    HeadMistaken(tokens, reserved, base);
    assert Select(protected, marks, true)[0] == tokens[0];
    assert Select(tokens, marks, true)[0] == tokens[0];
  }

  lemma PlainHead(tokens: seq<string>, marks: seq<bool>, reserved: set<string>, base: nat)
    requires tokens != [] && |marks| == |tokens| && tokens[0] !in reserved && !CollidesAt(tokens, reserved, base, 0)
    ensures Restores(tokens, marks, reserved, base) <==> Restores(tokens[1..], marks[1..], reserved, base + 1)
  {
    var protected := Protect(tokens, reserved, base);
    ProtectSuffix(tokens, reserved, base, 1);
    HeadMistaken(tokens, reserved, base);
    RestoreUnmistakenHead(tokens[0], marks[0], Select(protected[1..], marks[1..], true),
                          Originals(tokens, reserved, base), Select(tokens[1..], marks[1..], true));
  }

  /** Renaming back restores the kept tokens exactly when no early collision exists. */
  lemma {:induction false} RestoreIff(tokens: seq<string>, marks: seq<bool>, reserved: set<string>, base: nat)
    requires |marks| == |tokens|
    requires KeepsReserved(tokens, marks, reserved) && KeepsCollisions(tokens, marks, reserved, base)
    ensures Restores(tokens, marks, reserved, base) <==> !EarlyCollision(tokens, reserved, base)
    decreases |tokens|
  {
    if tokens != [] {
      CollisionSplits(tokens, reserved, base);
      SuffixKeeps(tokens, marks, reserved, base);
      if CollidesAt(tokens, reserved, base, 0) {
        MistakenHead(tokens, marks, reserved, base);
      } else {
        RestoreIff(tokens[1..], marks[1..], reserved, base + 1);
        if tokens[0] in reserved {
          ReservedHead(tokens, marks, reserved, base);
        } else {
          PlainHead(tokens, marks, reserved, base);
        }
      }
    }
  }

  lemma RestoreUnmistakenHead(token: string, keep: bool, kept: seq<string>, m: map<string, string>, original: seq<string>)
    requires token !in m
    ensures var head := if keep then [token] else [];
            Restore(head + kept, m) == head + original <==> Restore(kept, m) == original
  {
    if keep {
      assert ([token] + kept)[1..] == kept;
      assert forall rest: seq<string> :: ([token] + rest)[1..] == rest;
    } else {
      assert [] + kept == kept && [] + original == original;
    }
  }

  lemma SuffixKeeps(tokens: seq<string>, marks: seq<bool>, reserved: set<string>, base: nat)
    requires tokens != [] && |marks| == |tokens|
    requires KeepsReserved(tokens, marks, reserved) && KeepsCollisions(tokens, marks, reserved, base)
    ensures KeepsReserved(tokens[1..], marks[1..], reserved)
    ensures KeepsCollisions(tokens[1..], marks[1..], reserved, base + 1)
  {
    var rest := tokens[1..];
    forall k: nat | k < |rest| && CollidesAt(rest, reserved, base + 1, k) ensures marks[1..][k] {
      var i :| k < i < |rest| && rest[i] in reserved && rest[k] == Sentinel(base + 1 + i);
      assert tokens[i + 1] in reserved && tokens[k + 1] == Sentinel(base + (i + 1));
      assert CollidesAt(tokens, reserved, base, k + 1);
    }
  }

  /** On success a sentinel-like token was not consumed either. */
  lemma {:induction false} SentinelsAreKept(g: Grammar, tokens: seq<string>, acc: Acc, k: nat, index: nat)
    requires IgnoresSentinels(g) && ParseFrom(g, tokens, acc).Ok?
    requires k < |tokens| && tokens[k] == Sentinel(index)
    ensures Kept(g, tokens)[k]
    decreases |tokens|
  {
    assert g.classify(Sentinel(index)) == Unowned;
    if !g.classify(tokens[0]).Terminator? {
      var n := Width(g, tokens);
      if k >= n {
        SentinelsAreKept(g, tokens[n..], Apply(acc, ReadItem(g, tokens).value).value, k - n, index);
      }
    }
  }

  lemma CollisionsAreKept(g: Grammar, tokens: seq<string>, reserved: set<string>)
    requires IgnoresSentinels(g)
    requires Parse(g, Protect(tokens, reserved, 0)).Ok?
    ensures KeepsCollisions(tokens, Kept(g, Protect(tokens, reserved, 0)), reserved, 0)
  {
    var protected := Protect(tokens, reserved, 0);
    forall k: nat | k < |tokens| && CollidesAt(tokens, reserved, 0, k) ensures Kept(g, protected)[k] {
      var i :| k < i < |tokens| && tokens[i] in reserved && tokens[k] == Sentinel(0 + i);
      SentinelsAreKept(g, protected, EMPTY, k, i);
    }
  }

  // ----- When the errors differ -----

  /**
   Reading argv from `acc`, the options before `k` all parse, and the one at `k` takes its value from the
   next token, which is reserved.
   */
  predicate StopsAtReserved(d: Grammar, tokens: seq<string>, reserved: set<string>, acc: Acc, k: nat) {
    && k + 1 < |tokens| && tokens[k + 1] in reserved
    && Whole(d, tokens[..k]) && ParseFrom(d, tokens[..k], acc).Ok?
    && d.classify(tokens[k]).Split?
  }

  /** What both parsers report then. */
  predicate StopReported(w: Result<Acc, SharedArgError>, d: Result<Acc, SharedArgError>, tokens: seq<string>, base: nat, k: nat)
    requires k + 1 < |tokens|
  {
    w.Err? && d.Err? && ShowsSentinel(w.error, d.error, tokens[k + 1], base + k + 1)
  }

  lemma StopsLater(d: Grammar, tokens: seq<string>, reserved: set<string>, acc: Acc, k: nat)
    requires tokens != [] && !d.classify(tokens[0]).Terminator?
    requires ReadItem(d, tokens).Ok? && Apply(acc, ReadItem(d, tokens).value).Ok?
    requires var n := Width(d, tokens); StopsAtReserved(d, tokens[n..], reserved, Apply(acc, ReadItem(d, tokens).value).value, k)
    ensures StopsAtReserved(d, tokens, reserved, acc, Width(d, tokens) + k)
  {
    var n := Width(d, tokens);
    var head, rest := tokens[..n], tokens[n..];
    HeadIsOption(d, tokens);
    OptionAlone(d, head, acc);
    assert tokens[..n + k] == head + rest[..k];
    WholeConcat(d, head, rest[..k]);
    ParseInSequence(d, head, rest[..k], acc);
    assert ReadItem(d, head) == ReadItem(d, tokens);
  }

  /** A refused reserved value is the value of the option at which the parsers stop. */
  lemma {:induction false} ReservedErrorStops(g: Grammar, tokens: seq<string>, reserved: set<string>, base: nat, x: Acc, y: Acc)
    requires IgnoresSentinels(g) && SameSlots(x, y)
    requires ParseFrom(Direct(g, reserved), tokens, y).Err? && IsReservedValue(ParseFrom(Direct(g, reserved), tokens, y).error)
    ensures exists k: nat :: StopsBoth(g, tokens, reserved, base, x, y, k)
    decreases |tokens|
  {
    var d := Direct(g, reserved);
    if ReadItem(d, tokens).Err? {
      StopsHere(g, tokens, reserved, base, x, y);
      assert StopsBoth(g, tokens, reserved, base, x, y, 0);
    } else {
      var n := Width(d, tokens);
      var x', y' := HeadsStep(g, tokens, reserved, base, x, y);
      ReservedErrorStops(g, tokens[n..], reserved, base + n, x', y');
      var later: nat :| StopsBoth(g, tokens[n..], reserved, base + n, x', y', later);
      StopsBothLater(g, tokens, reserved, base, x, y, x', y', later);
    }
  }

  lemma StopsBothLater(g: Grammar, tokens: seq<string>, reserved: set<string>, base: nat, x: Acc, y: Acc, x': Acc, y': Acc, k: nat)
    requires tokens != []
    requires var d, n := Direct(g, reserved), Width(Direct(g, reserved), tokens);
             && !d.classify(tokens[0]).Terminator? && ReadItem(d, tokens).Ok? && Apply(y, ReadItem(d, tokens).value) == Ok(y')
             && ParseFrom(d, tokens, y) == ParseFrom(d, tokens[n..], y')
             && ParseFrom(g, Protect(tokens, reserved, base), x) == ParseFrom(g, Protect(tokens[n..], reserved, base + n), x')
             && StopsBoth(g, tokens[n..], reserved, base + n, x', y', k)
    ensures StopsBoth(g, tokens, reserved, base, x, y, Width(Direct(g, reserved), tokens) + k)
  {
    var d, n := Direct(g, reserved), Width(Direct(g, reserved), tokens);
    StopsLater(d, tokens, reserved, y, k);
    assert tokens[n..][k + 1] == tokens[n + k + 1];
  }

  /** Both parsers stop at the option at `k`, and report it. */
  predicate StopsBoth(g: Grammar, tokens: seq<string>, reserved: set<string>, base: nat, x: Acc, y: Acc, k: nat) {
    && StopsAtReserved(Direct(g, reserved), tokens, reserved, y, k)
    && StopReported(ParseFrom(g, Protect(tokens, reserved, base), x), ParseFrom(Direct(g, reserved), tokens, y), tokens, base, k)
  }

  /** Past a head that both accept, both go on with the rest. */
  lemma HeadsStep(g: Grammar, tokens: seq<string>, reserved: set<string>, base: nat, x: Acc, y: Acc) returns (x': Acc, y': Acc)
    requires IgnoresSentinels(g) && SameSlots(x, y) && tokens != []
    requires var d := Direct(g, reserved);
             && !d.classify(tokens[0]).Terminator? && ReadItem(d, tokens).Ok?
             && ParseFrom(d, tokens, y).Err? && !ParseFrom(d, tokens, y).error.Conflict?
    ensures SameSlots(x', y')
    ensures var d := Direct(g, reserved);
            var n := Width(d, tokens);
            && Apply(y, ReadItem(d, tokens).value) == Ok(y')
            && ParseFrom(d, tokens, y) == ParseFrom(d, tokens[n..], y')
            && ParseFrom(g, Protect(tokens, reserved, base), x) == ParseFrom(g, Protect(tokens[n..], reserved, base + n), x')
  {
    var d, protected := Direct(g, reserved), Protect(tokens, reserved, base);
    HeadsMatch(g, tokens, reserved, base);
    var a, b := ReadItem(g, protected).value, ReadItem(d, tokens).value;
    ApplyInStep(x, y, a, b);
    ProtectSuffix(tokens, reserved, base, Width(d, tokens));
    x', y' := Apply(x, a).value, Apply(y, b).value;
  }

  lemma StopsHere(g: Grammar, tokens: seq<string>, reserved: set<string>, base: nat, x: Acc, y: Acc)
    requires IgnoresSentinels(g) && tokens != [] && !Direct(g, reserved).classify(tokens[0]).Terminator?
    requires ReadItem(Direct(g, reserved), tokens).Err? && IsReservedValue(ReadItem(Direct(g, reserved), tokens).error)
    ensures StopsBoth(g, tokens, reserved, base, x, y, 0)
  {
    RefusedHead(g, tokens, reserved, base);
    HeadsMatch(g, tokens, reserved, base);
    assert tokens[..0] == [];
  }

  lemma RefusedHead(g: Grammar, tokens: seq<string>, reserved: set<string>, base: nat)
    requires IgnoresSentinels(g) && tokens != [] && !Direct(g, reserved).classify(tokens[0]).Terminator?
    requires ReadItem(Direct(g, reserved), tokens).Err? && IsReservedValue(ReadItem(Direct(g, reserved), tokens).error)
    ensures |tokens| > 1 && tokens[1] in reserved && Direct(g, reserved).classify(tokens[0]).Split?
    ensures var w := ReadItem(g, Protect(tokens, reserved, base));
            w.Err? && ShowsSentinel(w.error, ReadItem(Direct(g, reserved), tokens).error, tokens[1], base + 1)
  {
    match Direct(g, reserved).classify(tokens[0]) {
      case Split(field) =>
        assert !SaysReserved(g.readNext(field, tokens[1]));
        assert RefusesSentinel(g.readNext(field, Sentinel(base + 1)), field, base + 1);
        assert !SaysReserved(g.readNext(field, Sentinel(base + 1)));
      case _ =>
    }
  }

  /** Stopping at a reserved value is the refusal only the direct parser gives. */
  lemma StopIsReservedError(g: Grammar, tokens: seq<string>, reserved: set<string>, acc: Acc, k: nat)
    requires StopsAtReserved(Direct(g, reserved), tokens, reserved, acc, k)
    ensures var d := Direct(g, reserved);
            ParseFrom(d, tokens, acc) == Err(InvalidValue(FlagName(d.classify(tokens[k]).field), tokens[k + 1], RESERVED_VALUE))
  {
    var d := Direct(g, reserved);
    assert tokens == tokens[..k] + tokens[k..];
    ParseInSequence(d, tokens[..k], tokens[k..], acc);
    assert tokens[k..][1] == tokens[k + 1];
    assert ReadItem(d, tokens[k..]).Err?;
  }

  /** There is one place to stop. */
  lemma StopIsUnique(g: Grammar, tokens: seq<string>, reserved: set<string>, acc: Acc, j: nat, k: nat)
    requires StopsAtReserved(Direct(g, reserved), tokens, reserved, acc, j)
    requires StopsAtReserved(Direct(g, reserved), tokens, reserved, acc, k)
    ensures j >= k
  {
    var before := tokens[..k];
    if j + 1 < k {
      assert before[..j] == tokens[..j];
      StopIsReservedError(g, before, reserved, acc, j);
    }
  }

  /** Parsing argv stops at the option at `k`, whose value is a separate reserved token. */
  predicate RefusesReservedAfter(d: Grammar, tokens: seq<string>, reserved: set<string>, k: nat) {
    StopsAtReserved(d, tokens, reserved, EMPTY, k)
  }

  lemma ReservedErrorIffStop(g: Grammar, tokens: seq<string>, reserved: set<string>)
    requires IgnoresSentinels(g) && Parse(Direct(g, reserved), tokens).Err?
    ensures IsReservedValue(Parse(Direct(g, reserved), tokens).error)
            <==> exists k: nat :: RefusesReservedAfter(Direct(g, reserved), tokens, reserved, k)
    ensures forall k: nat :: RefusesReservedAfter(Direct(g, reserved), tokens, reserved, k) ==>
              StopReported(ParseFrom(g, Protect(tokens, reserved, 0), EMPTY), ParseFrom(Direct(g, reserved), tokens, EMPTY), tokens, 0, k)
  {
    var d := Direct(g, reserved);
    forall k: nat | RefusesReservedAfter(d, tokens, reserved, k)
      ensures IsReservedValue(Parse(d, tokens).error)
    {
      StopIsReservedError(g, tokens, reserved, EMPTY, k);
    }
    if IsReservedValue(Parse(d, tokens).error) {
      ReservedErrorStops(g, tokens, reserved, 0, EMPTY, EMPTY);
      var k: nat :| StopsBoth(g, tokens, reserved, 0, EMPTY, EMPTY, k);
      assert RefusesReservedAfter(d, tokens, reserved, k);
      forall j: nat | RefusesReservedAfter(d, tokens, reserved, j) ensures j == k {
        StopIsUnique(g, tokens, reserved, EMPTY, j, k);
        StopIsUnique(g, tokens, reserved, EMPTY, k, j);
      }
    }
  }

  /**
   The errors of the wrapper and the direct parser differ exactly when parsing stops at an option whose
   value is a separate reserved token; the wrapper then blames the same flag and shows that token's sentinel.
   */
  lemma ErrorsDifferIff(g: Grammar, tokens: seq<string>, reserved: set<string>)
    requires IgnoresSentinels(g) && Parse(Direct(g, reserved), tokens).Err?
    ensures WrappedBy(g, tokens, reserved).Err?
    ensures var w, e := WrappedBy(g, tokens, reserved).error, Parse(Direct(g, reserved), tokens).error;
            && (w != e <==> exists k: nat :: RefusesReservedAfter(Direct(g, reserved), tokens, reserved, k))
            && (forall k: nat :: RefusesReservedAfter(Direct(g, reserved), tokens, reserved, k) ==>
                 ShowsSentinel(w, e, tokens[k + 1], k + 1))
  {
    var d := Direct(g, reserved);
    DirectInStep(g, reserved);
    Simulation(g, d, tokens, reserved, 0, EMPTY, EMPTY);
    ReservedErrorIffStop(g, tokens, reserved);
  }

  // ----- The theorems -----

  lemma WrapperOf(g: Grammar, tokens: seq<string>, reserved: set<string>)
    requires IgnoresSentinels(g)
    ensures var w, d := WrappedBy(g, tokens, reserved), Parse(Direct(g, reserved), tokens);
            && (w.Ok? <==> d.Ok?)
            && (w.Ok? ==> SameChoices(w.value, d.value))
            && (w.Ok? ==> (w.value.passthrough == d.value.passthrough <==> !EarlyCollision(tokens, reserved, 0)))
  {
    var d := Direct(g, reserved);
    var protected := Protect(tokens, reserved, 0);
    DirectInStep(g, reserved);
    Simulation(g, d, tokens, reserved, 0, EMPTY, EMPTY);
    if Parse(d, tokens).Ok? {
      SameKept(g, d, tokens, reserved, 0);
      ParsingConservesTokens(g, protected);
      ParsingConservesTokens(d, tokens);
      ReservedAreKept(g, d, tokens, reserved, EMPTY);
      CollisionsAreKept(g, tokens, reserved);
      RestoreIff(tokens, Kept(d, tokens), reserved, 0);
    }
  }

  /**
   For every argv and every reserved set the wrapper succeeds exactly when the direct parser does,
   with the same choices; the passthrough is the direct parser's exactly when no unreserved token is
   spelled like the sentinel of a later reserved one. When both fail, the errors are equal unless parsing
   stopped at an option whose value is a separate reserved token; then the same flag is blamed and the
   wrapper shows that token's sentinel.
   */
  lemma WrapperIsDirectParser(tokens: seq<string>, reserved: set<string>)
    ensures var w, d := Wrapped(tokens, reserved), Parse(Direct(SHARED, reserved), tokens);
            && (w.Ok? <==> d.Ok?)
            && (w.Ok? ==> SameChoices(w.value, d.value))
            && (w.Ok? ==> (w == d <==> !EarlyCollision(tokens, reserved, 0)))
            && (w.Err? ==> (w.error == d.error <==> !IsReservedValue(d.error)))
            && (w.Err? ==> (w.error != d.error <==> exists k: nat :: RefusesReservedAfter(Direct(SHARED, reserved), tokens, reserved, k)))
            && (w.Err? ==> forall k: nat :: RefusesReservedAfter(Direct(SHARED, reserved), tokens, reserved, k) ==>
                 ShowsSentinel(w.error, d.error, tokens[k + 1], k + 1))
  {
    SharedIgnoresSentinels();
    WrapperOf(SHARED, tokens, reserved);
    if Wrapped(tokens, reserved).Err? {
      ErrorsDifferIff(SHARED, tokens, reserved);
      ReservedErrorIffStop(SHARED, tokens, reserved);
    }
  }

  /** The smallest case: the consumer's own token after `--output` is reported under a name the user never typed. */
  lemma ReservedValueIsReportedAsSentinel()
    ensures var tokens, reserved := ["--output", "--quiet"], {"--quiet"};
            var w, d := Wrapped(tokens, reserved), Parse(Direct(SHARED, reserved), tokens);
            && w.Err? && d == Err(InvalidValue("--output", "--quiet", RESERVED_VALUE))
            && w.error.InvalidValue? && w.error.flag == "--output" && w.error.value == Sentinel(1)
            && w != d
  {
    var tokens, reserved := ["--output", "--quiet"], {"--quiet"};
    var d := Direct(SHARED, reserved);
    SplitNames();
    assert |"--output"| == 8 && |"--quiet"| == 7;
    assert d.classify(tokens[0]) == Split(OutputField);
    assert tokens[..0] == [];
    assert RefusesReservedAfter(d, tokens, reserved, 0);
    StopIsReservedError(SHARED, tokens, reserved, EMPTY, 0);
    WrapperIsDirectParser(tokens, reserved);
  }

  predicate NulFree(tokens: seq<string>) {
    forall i :: 0 <= i < |tokens| ==> '\0' !in tokens[i]
  }

  lemma NulFreeNeverCollides(tokens: seq<string>, reserved: set<string>)
    requires NulFree(tokens)
    ensures !EarlyCollision(tokens, reserved, 0)
  {
    forall k, i: nat | 0 <= k < |tokens| ensures tokens[k] != Sentinel(i) {
      assert Sentinel(i)[0] == '\0';
    }
  }

  /** On argv as an operating system passes it, the wrapper is the direct parser and leaves no sentinel behind. */
  lemma NulFreeArgvIsRestored(tokens: seq<string>, reserved: set<string>)
    requires NulFree(tokens)
    ensures var w, d := Wrapped(tokens, reserved), Parse(Direct(SHARED, reserved), tokens);
            && (w.Ok? <==> d.Ok?)
            && (w.Ok? ==> w == d && NulFree(w.value.passthrough))
  {
    WrapperIsDirectParser(tokens, reserved);
    NulFreeNeverCollides(tokens, reserved);
    var d := Parse(Direct(SHARED, reserved), tokens);
    if d.Ok? {
      ParsingConservesTokens(Direct(SHARED, reserved), tokens);
      SelectIsSubset(tokens, Kept(Direct(SHARED, reserved), tokens), true);
      forall i | 0 <= i < |d.value.passthrough| ensures '\0' !in d.value.passthrough[i] {
        assert d.value.passthrough[i] in tokens;
      }
    }
  }

  lemma {:induction false} SelectIsSubset<T>(tokens: seq<T>, marks: seq<bool>, bit: bool)
    requires |marks| == |tokens|
    ensures forall t :: t in Select(tokens, marks, bit) ==> t in tokens
  {
    if tokens != [] {
      SelectIsSubset(tokens[1..], marks[1..], bit);
    }
  }

  /** Argv can collide, and then the wrapper hands on the wrong tokens although it reports success. */
  lemma CollidingArgvIsNotRestored()
    ensures var tokens, reserved := [Sentinel(1), "--quiet"], {"--quiet"};
            Wrapped(tokens, reserved).Ok? && Wrapped(tokens, reserved) != Parse(Direct(SHARED, reserved), tokens)
  {
    var tokens, reserved := [Sentinel(1), "--quiet"], {"--quiet"};
    WrapperIsDirectParser(tokens, reserved);
    assert Sentinel(1)[0] == '\0' && "--quiet"[0] == '-';
    assert tokens[1] in reserved && tokens[0] == Sentinel(0 + 1);
    assert CollidesAt(tokens, reserved, 0, 0);
    SentinelIsUnowned(1);
    TwoPass(Direct(SHARED, reserved), tokens);
  }

  lemma TwoPass(g: Grammar, tokens: seq<string>)
    requires |tokens| == 2 && g.classify(tokens[0]).Unowned? && g.classify(tokens[1]).Unowned?
    ensures Parse(g, tokens).Ok?
  {
    var second := tokens[1..];
    assert Width(g, tokens) == 1 && second[0] == tokens[1];
    var acc := Acc(None, None, None, [] + [tokens[0]]);
    assert ParseFrom(g, tokens, EMPTY) == ParseFrom(g, second, acc);
  }

  // ----- Dropping the reserved tokens -----

  /** Argv without the reserved tokens that stand before the terminator. */
  function Strip(g: Grammar, tokens: seq<string>, reserved: set<string>): seq<string>
    decreases |tokens|
  {
    if tokens == [] then []
    else if tokens[0] in reserved then Strip(g, tokens[1..], reserved)
    else if g.classify(tokens[0]).Terminator? then tokens
    else [tokens[0]] + Strip(g, tokens[1..], reserved)
  }

  lemma {:induction false} StrippedParse(g: Grammar, tokens: seq<string>, reserved: set<string>)
    requires IgnoresSentinels(g)
    requires forall field, value :: g.classify(value).Terminator? ==> g.readNext(field, value).Err?
    requires Parse(Direct(g, reserved), tokens).Ok?
    ensures Parse(g, Strip(g, tokens, reserved)).Ok?
    ensures SameChoices(Parse(g, Strip(g, tokens, reserved)).value, Parse(Direct(g, reserved), tokens).value)
    decreases |tokens|
  {
    var d := Direct(g, reserved);
    if tokens == [] {
    } else if tokens[0] !in reserved && g.classify(tokens[0]).Terminator? {
      SuffixAlone(g, tokens);
      SuffixAlone(d, tokens);
    } else {
      var n := Width(d, tokens);
      var head, rest := tokens[..n], tokens[n..];
      HeadIsOption(d, tokens);
      OptionIsPassedOrConsumed(d, head);
      ParseIsHomomorphism(d, head, rest);
      StrippedParse(g, rest, reserved);
      if tokens[0] in reserved {
        UnchosenIsDefault(d, rest);
      } else {
        StripHead(g, tokens, reserved);
        assert Strip(g, tokens, reserved) == head + Strip(g, rest, reserved);
        SameAgreement(Parse(g, head).value, Parse(d, rest).value, Parse(g, Strip(g, rest, reserved)).value);
        ParseIsHomomorphism(g, head, Strip(g, rest, reserved));
      }
    }
  }

  lemma SameAgreement(p: ParsedSharedArgs, q: ParsedSharedArgs, r: ParsedSharedArgs)
    requires SameChoices(q, r)
    ensures Agree(p, q) <==> Agree(p, r)
    ensures SameChoices(Merge(p, q), Merge(p, r))
  {
    assert forall field :: ChoiceOf(q, field) == ChoiceOf(r, field);
  }

  lemma StripHead(g: Grammar, tokens: seq<string>, reserved: set<string>)
    requires tokens != [] && tokens[0] !in reserved && !g.classify(tokens[0]).Terminator?
    requires forall field, value :: g.classify(value).Terminator? ==> g.readNext(field, value).Err?
    requires ReadItem(Direct(g, reserved), tokens).Ok?
    ensures var n := Width(Direct(g, reserved), tokens);
            && Strip(g, tokens, reserved) == tokens[..n] + Strip(g, tokens[n..], reserved)
            && Whole(g, tokens[..n]) && Parse(g, tokens[..n]) == Parse(Direct(g, reserved), tokens[..n])
  {
    var d := Direct(g, reserved);
    HeadIsOption(d, tokens);
    if Width(d, tokens) == 2 {
      StripTwo(g, tokens, reserved);
    }
    SameHead(g, tokens[..Width(d, tokens)], reserved);
  }

  lemma StripTwo(g: Grammar, tokens: seq<string>, reserved: set<string>)
    requires |tokens| >= 2 && tokens[0] !in reserved && tokens[1] !in reserved
    requires !g.classify(tokens[0]).Terminator? && !g.classify(tokens[1]).Terminator?
    ensures Strip(g, tokens, reserved) == tokens[..2] + Strip(g, tokens[2..], reserved)
  {
    assert tokens[1..][1..] == tokens[2..];
    assert Strip(g, tokens[1..], reserved) == [tokens[1]] + Strip(g, tokens[2..], reserved);
  }

  /** An option the direct parser accepts is read by `g` in the same way. */
  lemma SameHead(g: Grammar, head: seq<string>, reserved: set<string>)
    requires IsOption(Direct(g, reserved), head) && head[0] !in reserved
    ensures Whole(g, head) && Parse(g, head) == Parse(Direct(g, reserved), head)
  {
    assert ReadItem(g, head) == ReadItem(Direct(g, reserved), head);
    OptionAlone(g, head, EMPTY);
    OptionAlone(Direct(g, reserved), head, EMPTY);
  }

  lemma TerminatorIsNoValue(field: Field, value: string)
    requires Classify(value).Terminator?
    ensures ReadValue(field, value).Err?
  {
    assert value[0] == '-';
    ForeignStartIsRefused(value);
  }

  /** On success the choices are those of argv with the reserved tokens before the terminator removed. */
  lemma ReservedTokensDoNotChoose(tokens: seq<string>, reserved: set<string>)
    requires Wrapped(tokens, reserved).Ok?
    ensures Parse(SHARED, Strip(SHARED, tokens, reserved)).Ok?
    ensures SameChoices(Wrapped(tokens, reserved).value, Parse(SHARED, Strip(SHARED, tokens, reserved)).value)
  {
    WrapperIsDirectParser(tokens, reserved);
    SharedIgnoresSentinels();
    forall field, value | SHARED.classify(value).Terminator? ensures SHARED.readNext(field, value).Err? {
      TerminatorIsNoValue(field, value);
    }
    StrippedParse(SHARED, tokens, reserved);
  }
}
