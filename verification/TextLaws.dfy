/** What trimming and ASCII lower-casing do, told by code points. */
module TextLaws {
  import opened Prelude
  import opened Text

  /** The code points with the Unicode White_Space property. */
  predicate IsSpaceCode(n: int) {
    || 9 <= n <= 13 || 0x2000 <= n <= 0x200A
    || n in {0x20, 0x85, 0xA0, 0x1680, 0x2028, 0x2029, 0x202F, 0x205F, 0x3000}
  }

  lemma WhitespaceIsSpaceCode(c: char)
    ensures IsWhitespace(c) <==> IsSpaceCode(c as int)
  {
  }

  predicate IsBlank(s: string) {
    forall i :: 0 <= i < |s| ==> IsSpaceCode(s[i] as int)
  }

  /** Not empty at either end by reason of a space. */
  predicate HasSolidEnds(s: string) {
    s == [] || (!IsSpaceCode(s[0] as int) && !IsSpaceCode(s[|s| - 1] as int))
  }

  lemma {:induction false} TrimStartIs(before: string, rest: string)
    requires IsBlank(before) && (rest == [] || !IsSpaceCode(rest[0] as int))
    ensures TrimStart(before + rest) == rest
  {
    if before == [] {
      assert before + rest == rest;
      assert rest != [] ==> (IsWhitespace(rest[0]) <==> IsSpaceCode(rest[0] as int));
    } else {
      WhitespaceIsSpaceCode(before[0]);
      assert (before + rest)[1..] == before[1..] + rest;
      TrimStartIs(before[1..], rest);
    }
  }

  lemma {:induction false} TrimEndIs(core: string, after: string)
    requires IsBlank(after) && (core == [] || !IsSpaceCode(core[|core| - 1] as int))
    ensures TrimEnd(core + after) == core
    decreases |after|
  {
    if after == [] {
      assert core + after == core;
      assert core != [] ==> (IsWhitespace(core[|core| - 1]) <==> IsSpaceCode(core[|core| - 1] as int));
    } else {
      var all := core + after;
      WhitespaceIsSpaceCode(after[|after| - 1]);
      assert all[..|all| - 1] == core + after[..|after| - 1];
      TrimEndIs(core, after[..|after| - 1]);
    }
  }

  /** Blanks around a text with solid ends are what trimming removes, and nothing else. */
  lemma TrimIs(before: string, core: string, after: string)
    requires IsBlank(before) && IsBlank(after) && HasSolidEnds(core)
    ensures Trim(before + core + after) == core
  {
    if core == [] {
      assert before + core + after == (before + after) + [];
      TrimStartIs(before + after, []);
    } else {
      assert before + core + after == before + (core + after);
      TrimStartIs(before, core + after);
      TrimEndIs(core, after);
    }
  }

  lemma {:induction false} TrimStartDropsBlanks(s: string)
    ensures IsBlank(s[..|s| - |TrimStart(s)|])
  {
    if s != [] && IsWhitespace(s[0]) {
      TrimStartDropsBlanks(s[1..]);
      WhitespaceIsSpaceCode(s[0]);
      assert s[..|s| - |TrimStart(s)|] == [s[0]] + s[1..][..|s[1..]| - |TrimStart(s[1..])|];
    }
  }

  lemma {:induction false} TrimEndDropsBlanks(s: string)
    ensures IsBlank(s[|TrimEnd(s)|..])
    decreases |s|
  {
    if s != [] && IsWhitespace(s[|s| - 1]) {
      var shorter := s[..|s| - 1];
      TrimEndDropsBlanks(shorter);
      WhitespaceIsSpaceCode(s[|s| - 1]);
      assert s[|TrimEnd(s)|..] == shorter[|TrimEnd(shorter)|..] + [s[|s| - 1]];
    }
  }

  lemma TrimHasSolidEnds(s: string)
    ensures HasSolidEnds(Trim(s))
  {
    var start, core := TrimStart(s), Trim(s);
    if core != [] {
      WhitespaceIsSpaceCode(core[0]);
      WhitespaceIsSpaceCode(core[|core| - 1]);
      assert core[0] == start[0];
    }
  }

  /** What trimming takes away in front, and behind. */
  function Before(s: string): string {
    s[..|s| - |TrimStart(s)|]
  }

  function After(s: string): string {
    TrimStart(s)[|Trim(s)|..]
  }

  lemma InThree(s: string, tail: string, core: string)
    requires |tail| <= |s| && tail == s[|s| - |tail|..] && core <= tail
    ensures s == s[..|s| - |tail|] + core + tail[|core|..]
  {
  }

  /** Every text is what trimming leaves, with blanks around it. */
  lemma TrimSplits(s: string)
    ensures s == Before(s) + Trim(s) + After(s)
  {
    InThree(s, TrimStart(s), Trim(s));
  }

  lemma TrimDropsBlanks(s: string)
    ensures IsBlank(Before(s)) && IsBlank(After(s))
  {
    TrimStartDropsBlanks(s);
    TrimEndDropsBlanks(TrimStart(s));
  }

  // ----- Words in any ASCII case -----

  /** `cased` is `word` with some of its letters in upper case. */
  predicate SameLetters(cased: string, word: string) {
    && |cased| == |word|
    && forall i :: 0 <= i < |word| ==>
         cased[i] == word[i] || (65 <= cased[i] as int <= 90 && word[i] as int == cased[i] as int + 32)
  }

  /** Lower-case letters and digits. */
  predicate IsWord(word: string) {
    word != [] && forall i :: 0 <= i < |word| ==> 'a' <= word[i] <= 'z' || '0' <= word[i] <= '9'
  }

  lemma LowerIs(cased: string, word: string)
    requires forall i :: 0 <= i < |word| ==> !(65 <= word[i] as int <= 90)
    ensures ToAsciiLower(cased) == word <==> SameLetters(cased, word)
  {
    var lower := ToAsciiLower(cased);
    if SameLetters(cased, word) {
      forall i | 0 <= i < |word| ensures lower[i] == word[i] {
      }
    }
    if lower == word {
      forall i | 0 <= i < |word|
        ensures cased[i] == word[i] || (65 <= cased[i] as int <= 90 && word[i] as int == cased[i] as int + 32)
      {
        assert lower[i] == AsciiLower(cased[i]);
      }
    }
  }

  /** The value is the word, in any ASCII case and with any blanks around it. */
  predicate Spells(value: string, before: string, cased: string, after: string, word: string) {
    value == before + cased + after && IsBlank(before) && IsBlank(after) && SameLetters(cased, word)
  }

  ghost predicate IsSpelling(value: string, word: string) {
    exists before, cased, after :: Spells(value, before, cased, after, word)
  }

  lemma SpellingIff(value: string, word: string)
    requires IsWord(word)
    ensures IsSpelling(value, word) <==> ToAsciiLower(Trim(value)) == word
  {
    if before, cased, after :| Spells(value, before, cased, after, word) {
      TrimIs(before, cased, after);
      LowerIs(cased, word);
    }
    if ToAsciiLower(Trim(value)) == word {
      TrimSplits(value);
      TrimDropsBlanks(value);
      LowerIs(Trim(value), word);
      assert Spells(value, Before(value), Trim(value), After(value), word);
    }
  }
}
