/**
 * `LanguageRule.kt`: one language's phonological rule record, its derived
 * character set and the coverage score of a text against it.
 */
module LanguageRules {
  import opened Text

  /**
   * A language's rule record. The character sets and string sets are read by
   * the tokenizer and the syllabifier; `uniqueChars` is filled in by the rule
   * set (see `MetaRules.BuildMetaRule`) and read only by detection.
   */
  datatype LanguageRule = LanguageRule(
    lang: string,
    vowels: set<char>,
    consonants: set<char>,
    sonorants: set<char>,
    clustersKeepNext: set<string>,
    dontSplitDigraphs: set<string>,
    digraphVowels: set<string>,
    glides: set<char>,
    syllabicConsonants: set<char>,
    modifiersAttachLeft: set<char>,
    modifiersAttachRight: set<char>,
    modifiersSeparators: set<char>,
    clustersOnlyAfterLong: set<string>,
    splitHiatus: bool,
    finalSemivowels: set<char>,
    finalSequencesKeep: set<string>,
    suffixesBreakVre: set<string>,
    suffixesKeepVre: set<string>,
    uniqueChars: set<char>)

  /** Every character the rule knows about. */
  function AllChars(rule: LanguageRule): set<char>
  {
    rule.vowels + rule.consonants + rule.modifiersAttachLeft + rule.modifiersAttachRight + rule.modifiersSeparators
  }

  /**
   * `allChars` is built from the five inventories only: sonorants, glides,
   * syllabic consonants (and the rule-set-assigned unique characters) never
   * contribute to it.
   */
  lemma AllCharsIgnoresOtherSets(rule: LanguageRule, sonorants: set<char>, glides: set<char>, syllabic: set<char>, unique: set<char>)
    ensures AllChars(rule.(sonorants := sonorants, glides := glides, syllabicConsonants := syllabic, uniqueChars := unique))
         == AllChars(rule)
    ensures forall c :: c in AllChars(rule) <==>
      c in rule.vowels || c in rule.consonants || c in rule.modifiersAttachLeft ||
      c in rule.modifiersAttachRight || c in rule.modifiersSeparators
  {
  }

  /** A score `num / den`: the source's `Double` scores are exact ratios of counts. */
  datatype Ratio = Ratio(num: nat, den: nat)

  /** The score 0.0. */
  const Zero := Ratio(0, 1)

  /** A well-formed score lies in [0, 1]. */
  predicate IsScore(s: Ratio)
  {
    0 < s.den && s.num <= s.den
  }

  /** `a < b` as real numbers, by cross-multiplication. */
  predicate Less(a: Ratio, b: Ratio)
  {
    a.num * b.den < b.num * a.den
  }

  /** `text.lowercase().filter { it.isLetter() }`. */
  function CleanText(u: Unicode, text: string): (clean: string)
    ensures |clean| <= |text|
  {
    if |text| == 0 then ""
    else
      var c := u.lower(text[|text| - 1]);
      CleanText(u, text[..|text| - 1]) + (if u.isLetter(c) then [c] else [])
  }

  /** The cleaned text holds exactly the letters of the lowered text, in order. */
  lemma {:induction false} CleanTextLetters(u: Unicode, text: string)
    ensures forall c :: c in CleanText(u, text) <==> exists i :: 0 <= i < |text| && c == u.lower(text[i]) && u.isLetter(c)
  {
    if |text| > 0 {
      var front, last := text[..|text| - 1], text[|text| - 1];
      CleanTextLetters(u, front);
      assert forall i :: 0 <= i < |front| ==> front[i] == text[i];
    }
  }

  lemma {:induction false} CleanTextAppend(u: Unicode, a: string, b: string)
    ensures CleanText(u, a + b) == CleanText(u, a) + CleanText(u, b)
  {
    if |b| == 0 {
      assert a + b == a;
    } else {
      var front, last := b[..|b| - 1], b[|b| - 1];
      CleanTextAppend(u, a, front);
      assert (a + b)[..|a + b| - 1] == a + front;
      assert (a + b)[|a + b| - 1] == last;
      var tail := if u.isLetter(u.lower(last)) then [u.lower(last)] else [];
      calc {
        CleanText(u, a + b);
        CleanText(u, a + front) + tail;
        CleanText(u, a) + CleanText(u, front) + tail;
        CleanText(u, a) + CleanText(u, b);
      }
    }
  }

  /** How many characters of `s` lie in `chars`. */
  function CountIn(s: string, chars: set<char>): (n: nat)
    ensures n <= |s|
  {
    if |s| == 0 then 0 else CountIn(s[..|s| - 1], chars) + (if s[|s| - 1] in chars then 1 else 0)
  }

  /** The count is full exactly when every character is in the set, and positive when one is. */
  lemma {:induction false} CountInExtremes(s: string, chars: set<char>)
    ensures CountIn(s, chars) == |s| <==> forall c :: c in s ==> c in chars
    ensures CountIn(s, chars) > 0 <==> exists c :: c in s && c in chars
  {
    if |s| > 0 {
      var front, last := s[..|s| - 1], s[|s| - 1];
      CountInExtremes(front, chars);
      assert s == front + [last];
      assert forall c :: c in s <==> c in front || c == last;
    }
  }

  /**
   * `calculateMatchScore`: the share of the text's letters (after lowering)
   * that the rule knows; 0 when there are none.
   */
  function MatchScore(rule: LanguageRule, u: Unicode, text: string): (score: Ratio)
    ensures IsScore(score)
    ensures |CleanText(u, text)| == 0 ==> score == Zero
    ensures |CleanText(u, text)| > 0 ==> score.den == |CleanText(u, text)|
  {
    if |text| == 0 then Zero
    else
      var clean := CleanText(u, text);
      if |clean| == 0 then Zero else Ratio(CountIn(clean, AllChars(rule)), |clean|)
  }

  /** The score is positive exactly when some letter of the text is known to the rule. */
  lemma MatchScorePositive(rule: LanguageRule, u: Unicode, text: string)
    ensures MatchScore(rule, u, text).num > 0 <==> exists c :: c in CleanText(u, text) && c in AllChars(rule)
  {
    CountInExtremes(CleanText(u, text), AllChars(rule));
  }

  /** The score is maximal exactly when there are letters and the rule knows all of them. */
  lemma MatchScoreFull(rule: LanguageRule, u: Unicode, text: string)
    ensures var score := MatchScore(rule, u, text);
      score.num == score.den <==> |CleanText(u, text)| > 0 && forall c :: c in CleanText(u, text) ==> c in AllChars(rule)
  {
    CountInExtremes(CleanText(u, text), AllChars(rule));
  }

  lemma CleanTextSkipsNonLetter(u: Unicode, before: string, c: char, after: string)
    requires !u.isLetter(u.lower(c))
    ensures CleanText(u, before + [c] + after) == CleanText(u, before + after)
  {
    assert CleanText(u, [c]) == "" by {
      assert [c][..0] == [];
    }
    calc {
      CleanText(u, before + [c] + after);
      { CleanTextAppend(u, before + [c], after); }
      CleanText(u, before + [c]) + CleanText(u, after);
      { CleanTextAppend(u, before, [c]); }
      CleanText(u, before) + CleanText(u, after);
      { CleanTextAppend(u, before, after); }
      CleanText(u, before + after);
    }
  }

  /** Characters that are not letters once lowered never change the score. */
  lemma NonLetterIgnored(rule: LanguageRule, u: Unicode, before: string, c: char, after: string)
    requires !u.isLetter(u.lower(c))
    ensures MatchScore(rule, u, before + [c] + after) == MatchScore(rule, u, before + after)
  {
    CleanTextSkipsNonLetter(u, before, c, after);
    if |before + after| == 0 {
      assert CleanText(u, before + after) == "";
    }
  }

  /** `calculateMatchScore` as the source computes it, with its two counters. */
  method CalculateMatchScore(rule: LanguageRule, u: Unicode, text: string) returns (score: Ratio)
    ensures score == MatchScore(rule, u, text)
  {
    if |text| == 0 {
      return Zero;
    }
    var cleanText := CleanText(u, text);
    if |cleanText| == 0 {
      return Zero;
    }
    var allChars := AllChars(rule);
    var matches, total := 0, 0;
    for i := 0 to |cleanText|
      invariant matches == CountIn(cleanText[..i], allChars)
      invariant total == i
    {
      assert cleanText[..i + 1][..i] == cleanText[..i];
      if cleanText[i] in allChars {
        matches := matches + 1;
      }
      total := total + 1;
    }
    assert cleanText[..|cleanText|] == cleanText;
    score := if total > 0 then Ratio(matches, total) else Zero;
  }
}
