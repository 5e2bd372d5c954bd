/** What validating an executable demands of its `--version` output, told by how the output is made up. */
module VersionReports {
  import opened Prelude
  import opened Text
  import opened TextLaws
  import opened Checksums
  import opened UpdateArgs
  import opened SelfUpdate

  // ----- Words -----

  /** No space anywhere. */
  predicate IsSolid(s: string) {
    s != [] && forall i :: 0 <= i < |s| ==> !IsSpaceCode(s[i] as int)
  }

  /** `word` stands in `s` as a word: without spaces, and bounded by spaces or the ends of `s`. */
  predicate StandsIn(s: string, before: string, word: string, after: string) {
    && s == before + word + after && IsSolid(word)
    && (before != [] ==> IsSpaceCode(before[|before| - 1] as int))
    && (after != [] ==> IsSpaceCode(after[0] as int))
  }

  ghost predicate IsWordOf(s: string, word: string) {
    exists before, after :: StandsIn(s, before, word, after)
  }

  lemma SolidHasNoWhitespace(s: string)
    ensures IsSolid(s) <==> s != [] && forall i :: 0 <= i < |s| ==> !IsWhitespace(s[i])
  {
    forall i | 0 <= i < |s| ensures IsWhitespace(s[i]) <==> IsSpaceCode(s[i] as int) {
      WhitespaceIsSpaceCode(s[i]);
    }
  }

  lemma WordThenAfter(word: string, after: string)
    requires IsSolid(word) && (after != [] ==> IsSpaceCode(after[0] as int))
    ensures word in Words(word + after)
  {
    SolidHasNoWhitespace(word);
    OneWord(word);
    if after != [] {
      WhitespaceIsSpaceCode(after[0]);
      WordsSplitAtWhitespace(word, after[0], after[1..]);
      assert word + after == word + [after[0]] + after[1..];
    } else {
      assert word + after == word;
    }
  }

  lemma StandingWordIsWord(s: string, before: string, word: string, after: string)
    requires StandsIn(s, before, word, after)
    ensures word in Words(s)
  {
    WordThenAfter(word, after);
    var tail := word + after;
    if before != [] {
      var n := |before| - 1;
      WhitespaceIsSpaceCode(before[n]);
      WordsSplitAtWhitespace(before[..n], before[n], tail);
      LastApart(before, tail);
    }
    Regroup(before, word, after);
  }

  lemma LastApart(before: string, tail: string)
    requires before != []
    ensures before + tail == before[..|before| - 1] + [before[|before| - 1]] + tail
  {
  }

  lemma Regroup(before: string, word: string, after: string)
    ensures before + word + after == before + (word + after)
    ensures before == [] ==> before + word + after == word + after
  {
  }

  lemma {:induction false} WordStands(s: string, word: string)
    requires word in Words(s)
    ensures IsWordOf(s, word)
    decreases |s|
  {
    WhitespaceIsSpaceCode(s[0]);
    if IsWhitespace(s[0]) {
      WordStands(s[1..], word);
      var before, after :| StandsIn(s[1..], before, word, after);
      assert StandsIn(s, [s[0]] + before, word, after);
    } else {
      var n := WordLength(s);
      FirstWordStands(s);
      if word != s[..n] {
        WordStands(s[n..], word);
        var before, after :| StandsIn(s[n..], before, word, after);
        LaterWordStands(s, n, before, word, after);
      }
    }
  }

  lemma FirstWordStands(s: string)
    requires s != [] && !IsWhitespace(s[0])
    ensures StandsIn(s, [], s[..WordLength(s)], s[WordLength(s)..])
  {
    var n := WordLength(s);
    SolidHasNoWhitespace(s[..n]);
    if n < |s| {
      WhitespaceIsSpaceCode(s[n]);
    }
    assert s == [] + s[..n] + s[n..];
  }

  lemma LaterWordStands(s: string, n: nat, before: string, word: string, after: string)
    requires n <= |s| && (n < |s| ==> IsWhitespace(s[n]))
    requires StandsIn(s[n..], before, word, after)
    ensures StandsIn(s, s[..n] + before, word, after)
  {
    assert s == s[..n] + s[n..];
    WhitespaceIsSpaceCode(s[n]);
  }

  /** `split_whitespace` yields exactly the words that stand in the text. */
  lemma WordsAreStandingWords(s: string, word: string)
    ensures word in Words(s) <==> IsWordOf(s, word)
  {
    if word in Words(s) {
      WordStands(s, word);
    }
    if before, after :| StandsIn(s, before, word, after) {
      StandingWordIsWord(s, before, word, after);
    }
  }

  // ----- Versions in words -----

  /** ASCII letters and digits, and `.`, `-` and `+`. */
  predicate IsVersionCode(n: int) {
    48 <= n <= 57 || 65 <= n <= 90 || 97 <= n <= 122 || n in {43, 45, 46}
  }

  predicate IsMarks(s: string) {
    forall i :: 0 <= i < |s| ==> !IsVersionCode(s[i] as int)
  }

  lemma MarksArePunctuation(s: string)
    ensures IsMarks(s) <==> IsPunctuation(s)
  {
    forall i | 0 <= i < |s| ensures IsVersionChar(s[i]) <==> IsVersionCode(s[i] as int) {
    }
  }

  /** `word` is `v` with marks around it; `v` itself neither starts nor ends with one. */
  predicate IsMarked(word: string, before: string, v: string, after: string) {
    && word == before + v + after && IsMarks(before) && IsMarks(after)
    && (v != [] ==> IsVersionCode(v[0] as int) && IsVersionCode(v[|v| - 1] as int))
  }

  lemma {:induction false} AllMarksVanish(s: string)
    requires IsPunctuation(s)
    ensures TrimPunctuation(s) == []
  {
    if s != [] {
      AllMarksVanish(s[1..]);
    }
  }

  lemma MarkedIsTrimmed(word: string, before: string, v: string, after: string)
    requires IsMarked(word, before, v, after)
    ensures TrimPunctuation(word) == v
  {
    MarksArePunctuation(before);
    MarksArePunctuation(after);
    if v == [] {
      MarksArePunctuation(word);
      AllMarksVanish(word);
    } else {
      PunctuationIsTrimmed(before, v, after);
    }
  }

  lemma {:induction false} TrimmedIsMarked(word: string)
    ensures exists before, after :: IsMarked(word, before, TrimPunctuation(word), after)
    decreases |word|
  {
    var v := TrimPunctuation(word);
    if word == [] {
      assert IsMarked(word, [], v, []);
    } else if !IsVersionChar(word[0]) {
      TrimmedIsMarked(word[1..]);
      var before, after :| IsMarked(word[1..], before, v, after);
      assert IsMarked(word, [word[0]] + before, v, after);
    } else if !IsVersionChar(word[|word| - 1]) {
      var shorter := word[..|word| - 1];
      TrimmedIsMarked(shorter);
      var before, after :| IsMarked(shorter, before, v, after);
      assert IsMarked(word, before, v, after + [word[|word| - 1]]);
    } else {
      assert IsMarked(word, [], v, []);
    }
  }

  /** A version with or without one leading `v`. */
  function WithoutV(v: string): string {
    if v != [] && v[0] == 'v' then v[1..] else v
  }

  lemma TokenIs(word: string)
    ensures VersionToken(word) == WithoutV(TrimPunctuation(word))
  {
  }

  /** Somewhere in the output stands a word that is, within marks, a spelling of the wanted version. */
  predicate Reports(semver: SemVerParser, output: string, wanted: Option<SemVer>, before: string, word: string, after: string,
                    left: string, v: string, right: string)
  {
    StandsIn(output, before, word, after) && IsMarked(word, left, v, right) && semver(WithoutV(v)) == wanted
  }

  ghost predicate IsReported(semver: SemVerParser, output: string, wanted: Option<SemVer>) {
    wanted.Some? && exists before, word, after, left, v, right :: Reports(semver, output, wanted, before, word, after, left, v, right)
  }

  lemma MatchIffReported(semver: SemVerParser, output: string, target: string)
    ensures VersionOutputMatches(semver, output, target) <==> IsReported(semver, output, semver(NormalizeVersion(target)))
  {
    var wanted := semver(NormalizeVersion(target));
    if VersionOutputMatches(semver, output, target) {
      var word :| word in Words(output) && semver(VersionToken(word)) == wanted;
      WordsAreStandingWords(output, word);
      var before, after :| StandsIn(output, before, word, after);
      TrimmedIsMarked(word);
      var left, right :| IsMarked(word, left, TrimPunctuation(word), right);
      TokenIs(word);
      assert Reports(semver, output, wanted, before, word, after, left, TrimPunctuation(word), right);
    }
    if IsReported(semver, output, wanted) {
      var before, word, after, left, v, right :| Reports(semver, output, wanted, before, word, after, left, v, right);
      StandingWordIsWord(output, before, word, after);
      MarkedIsTrimmed(word, left, v, right);
      TokenIs(word);
    }
  }

  /**
   An executable is valid exactly when it exited with success and, on one of its two streams, a word is
   a spelling of the target version, within marks and with or without a leading `v`.
   */
  lemma ValidIffReported(semver: SemVerParser, run: Run, target: string)
    ensures IsValid(semver, run, target) <==>
              run.Exited? && run.success && (IsReported(semver, run.stdout, semver(NormalizeVersion(target)))
                                             || IsReported(semver, run.stderr, semver(NormalizeVersion(target))))
  {
    if run.Exited? {
      StreamsAreSearchedSeparately(semver, run.stdout, run.stderr, target);
      MatchIffReported(semver, run.stdout, target);
      MatchIffReported(semver, run.stderr, target);
    }
  }

  // ----- Over whole executions -----

  /** Some piece of the output parses to the version. */
  predicate Mentions(semver: SemVerParser, output: string, wanted: Option<SemVer>) {
    exists i, j :: 0 <= i <= j <= |output| && semver(output[i..j]) == wanted
  }

  lemma ReportedIsMentioned(semver: SemVerParser, output: string, wanted: Option<SemVer>)
    requires IsReported(semver, output, wanted)
    ensures wanted.Some? && Mentions(semver, output, wanted)
  {
    var before, word, after, left, v, right :| Reports(semver, output, wanted, before, word, after, left, v, right);
    var i := |before| + |left| + |v| - |WithoutV(v)|;
    var j := i + |WithoutV(v)|;
    assert output[i..j] == WithoutV(v);
  }

  /** What the run says for a version. */
  predicate Vouches(semver: SemVerParser, run: Run, wanted: Option<SemVer>) {
    && wanted.Some? && run.Exited? && run.success
    && (Mentions(semver, run.stdout, wanted) || Mentions(semver, run.stderr, wanted))
  }

  lemma ValidVouches(semver: SemVerParser, run: Run, target: string)
    requires IsValid(semver, run, target)
    ensures Vouches(semver, run, semver(NormalizeVersion(target)))
  {
    var wanted := semver(NormalizeVersion(target));
    ValidIffReported(semver, run, target);
    if IsReported(semver, run.stdout, wanted) {
      ReportedIsMentioned(semver, run.stdout, wanted);
    } else {
      ReportedIsMentioned(semver, run.stderr, wanted);
    }
  }

  /**
   For every environment: unless the installed bytes, run on their own and in place, exited with success
   and printed a piece that parses to the target version, the run is not reported as an update.
   */
  lemma UpdatedWasVouchedFor(config: Config, args: CliArgs, env: Environment, before: Disk, after: Disk, r: Result<Outcome, UpdateError>)
    requires IsExecution(config, args, env, before, after, r)
    requires r.Ok? && r.value.Updated?
    ensures env.release.Some?
    ensures var wanted := env.semver(NormalizeVersion(TargetOf(env.release.value)));
            && Vouches(env.semver, env.runCandidate(after.binary), wanted)
            && Vouches(env.semver, env.runInstalled(after.binary), wanted)
  {
    ReportTellsWhatIsInstalled(config, args, env, before, after, r);
    var target := TargetOf(env.release.value);
    ValidVouches(env.semver, env.runCandidate(after.binary), target);
    ValidVouches(env.semver, env.runInstalled(after.binary), target);
  }

  /** A tag, with any blanks around it, stands for the version it spells with or without one leading `v`. */
  lemma NormalizeIs(before: string, core: string, after: string)
    requires IsBlank(before) && IsBlank(after) && HasSolidEnds(core)
    ensures NormalizeVersion(before + core + after) == WithoutV(core)
  {
    TrimIs(before, core, after);
  }

  /**
   The installation is stale exactly when the two versions, stripped of blanks and of one leading `v`,
   differ: as versions if both parse, and as texts otherwise.
   */
  lemma StaleIff(config: Config, env: Environment, before: string, current: string, after: string,
                 front: string, tag: string, back: string)
    requires env.release.Some? && env.release.value.tagName == front + tag + back
    requires config.currentVersion == before + current + after
    requires IsBlank(before) && IsBlank(after) && HasSolidEnds(current)
    requires IsBlank(front) && IsBlank(back) && HasSolidEnds(tag)
    ensures var (c, t) := (env.semver(WithoutV(current)), env.semver(WithoutV(tag)));
            IsStale(config, env) <==> if c.Some? && t.Some? then c != t else WithoutV(current) != WithoutV(tag)
  {
    NormalizeIs(before, current, after);
    NormalizeIs(front, tag, back);
  }

  /** An update was neither merely asked about nor a dry run, and took every step up to the replacement. */
  lemma UpdatedTookEveryStep(config: Config, args: CliArgs, env: Environment, before: Disk, after: Disk, r: Result<Outcome, UpdateError>)
    requires IsExecution(config, args, env, before, after, r)
    requires r.Ok? && r.value.Updated?
    ensures !args.check && !args.dryRun && (args.noVerify ==> config.allowNoVerify)
    ensures env.tempDir && env.currentExe && env.backup && env.replace
    ensures after.backup == Some(before.binary)
  {
    ReportTellsWhatIsInstalled(config, args, env, before, after, r);
    var asset :| Installs(config, args, env, asset, after.binary);
    SettledIsCandidateOrOriginal(env, before, after.binary, TargetOf(env.release.value));
  }
}
