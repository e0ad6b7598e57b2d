/**
 * The two examples of the `Syllabreak` documentation, worked through the
 * model with a small English-like rule and a plain lower-case alphabet.
 */
module Examples {
  import opened Text
  import opened Tokens
  import opened LanguageRules
  import opened MetaRules
  import opened WordTokenizer
  import opened SyllableTokenizers
  import opened Nuclei
  import opened Boundaries
  import opened WordSyllabifiers
  import opened Syllabreak

  /** U+093E DEVANAGARI VOWEL SIGN AA: a combining mark, not a letter. */
  const SignAa: char := '\U{093E}'

  /**
   * Lower-case ASCII letters and one combining mark, all of which
   * `lowercase()` leaves alone.
   */
  const Alphabet := Unicode(c => c, c => 'a' <= c <= 'z', c => c == SignAa)

  const EnglishVowels: set<char> := {'a', 'e', 'i', 'o', 'u'}
  const EnglishConsonants: set<char> :=
    {'b', 'h', 'l', 'm', 'p', 'r'}

  /**
   * A rule without modifiers, digraphs or syllabic consonants, whose onsets
   * include "bl". Its unique characters are already those the rule set
   * assigns it when it is the only rule.
   */
  const English := LanguageRule(
    "eng", EnglishVowels, EnglishConsonants, {}, {"bl", "br", "pl", "pr"}, {}, {}, {}, {}, {}, {}, {}, {},
    false, {}, {}, {}, {}, EnglishVowels + EnglishConsonants)

  /**
   * A rule whose one vowel is the sign AA and which splits a hiatus; its
   * unique characters are all of its characters.
   */
  const Signs := LanguageRule(
    "hin", {SignAa}, {}, {}, {}, {}, {}, {}, {}, {}, {}, {}, {},
    true, {}, {}, {}, {}, {SignAa})

  /** Two signs AA: a WORD of marks with no letter in it. */
  const TwoSigns: string := [SignAa, SignAa]

  /** A rule with no modifiers, no digraphs and no glides. */
  predicate Plain(rule: LanguageRule)
  {
    && rule.modifiersAttachLeft == {} && rule.modifiersSeparators == {} && rule.modifiersAttachRight == {}
    && rule.dontSplitDigraphs == {} && rule.digraphVowels == {} && rule.glides == {}
  }

  /** One unit per character, classed by the inventories. */
  function CharUnits(rule: LanguageRule, word: string): (toks: seq<SyllableToken>)
    ensures |toks| == |word|
  {
    seq(|word|, i requires 0 <= i < |word| => Unit(word, ClassOf(rule, word[i]), i, i + 1))
  }

  /** Under a plain rule every character is a unit of its own. */
  lemma {:induction false} PlainRunFrom(rule: LanguageRule, word: string, pos: nat)
    requires Plain(rule) && pos <= |word|
    ensures RunFrom(rule, Alphabet, word, Progress(CharUnits(rule, word)[..pos], pos)) == Progress(CharUnits(rule, word), |word|)
    decreases |word| - pos
  {
    var units := CharUnits(rule, word);
    if pos == |word| {
      assert units[..pos] == units;
    } else {
      var p := Progress(units[..pos], pos);
      LowerAt(Alphabet, word);
      assert LeftModifier(rule, Alphabet, word, p) == None;
      assert SeparatorUnit(rule, Alphabet, word, p) == None;
      assert ConsonantDigraph(rule, Alphabet, word, p) == None;
      assert VowelDigraph(rule, Alphabet, word, p) == None;
      assert Step(rule, Alphabet, word, p) == Progress(units[..pos + 1], pos + 1) by {
        assert units[..pos + 1] == units[..pos] + [units[pos]];
      }
      PlainRunFrom(rule, word, pos + 1);
    }
  }

  lemma PlainUnits(rule: LanguageRule, word: string)
    requires Plain(rule)
    ensures SyllableTokens(rule, Alphabet, word) == CharUnits(rule, word)
  {
    PlainRunFrom(rule, word, 0);
    assert CharUnits(rule, word)[..0] == [];
  }

  /** Without final semivowels or syllabic consonants, the nuclei of a word with a vowel are its vowels. */
  lemma PlainNuclei(rule: LanguageRule, toks: seq<SyllableToken>)
    requires rule.finalSemivowels == {} && rule.syllabicConsonants == {} && VowelNuclei(toks) != []
    ensures FindNucleiSpec(rule, Alphabet, toks) == VowelNuclei(toks)
  {
  }

  lemma CharUnitsAt(rule: LanguageRule, word: string, i: nat)
    requires i < |word|
    ensures CharUnits(rule, word)[i].surface == [word[i]]
    ensures CharUnits(rule, word)[i].tokenClass == ClassOf(rule, word[i])
  {
    assert word[i..i + 1] == [word[i]];
  }

  /** A word whose only boundary falls before unit `b` is written as the two pieces joined by the hyphen. */
  lemma OneBoundary(toks: seq<SyllableToken>, b: nat, hyphen: string)
    ensures Assemble(toks, [b], hyphen) == Piece(toks, 0, b) + hyphen + Piece(toks, b, |toks|)
  {
    assert SyllableStart([b], 0) == 0 && SyllableStart([b], 1) == b;
    assert Written(toks, [b], 0, hyphen) == "";
    assert Written(toks, [b], 1, hyphen) == Piece(toks, 0, b) + hyphen;
  }

  /** The vowels of "hello" are its second and fifth units. */
  lemma HelloVowels()
    ensures VowelNuclei(CharUnits(English, "hello")) == [1, 4]
  {
    var w := "hello";
    var toks := CharUnits(English, w);
    var v := VowelNuclei(toks);
    forall x: nat
      ensures x in v <==> x in [1, 4]
    {
      if x < 5 {
        CharUnitsAt(English, w, x);
        if x == 0 {} else if x == 1 {} else if x == 2 {} else if x == 3 {} else {}
      }
    }
    AscendingUnique(v, [1, 4]);
  }

  /** The nuclei of "hello" are its two vowels. */
  lemma HelloNuclei()
    ensures FindNucleiSpec(English, Alphabet, CharUnits(English, "hello")) == [1, 4]
  {
    HelloVowels();
    PlainNuclei(English, CharUnits(English, "hello"));
  }

  /** Two consonants between two units form the whole cluster there. */
  lemma TwoConsonants(toks: seq<SyllableToken>, a: nat)
    requires a + 3 < |toks|
    requires toks[a + 1].tokenClass == Consonant && toks[a + 2].tokenClass == Consonant
    ensures ClusterBetween(toks, a, a + 3) == [a + 1, a + 2]
  {
    ClusterBetweenExactly(toks, a, a + 3);
    var c := ClusterBetween(toks, a, a + 3);
    forall x: nat
      ensures x in c <==> x in [a + 1, a + 2]
    {
    }
    AscendingUnique(c, [a + 1, a + 2]);
  }

  lemma HelloCluster()
    ensures ClusterBetween(CharUnits(English, "hello"), 1, 4) == [2, 3]
  {
    CharUnitsAt(English, "hello", 2);
    CharUnitsAt(English, "hello", 3);
    TwoConsonants(CharUnits(English, "hello"), 1);
  }

  /** "ll" does not open a syllable. */
  lemma HelloOnset()
    ensures !IsValidOnset(English, Alphabet, CharUnits(English, "hello"), "l", "l", 1)
  {
    LowerAt(Alphabet, "l");
    assert Lower(Alphabet, "l") == "l";
    assert Lower(Alphabet, "l") + Lower(Alphabet, "l") == "ll";
  }

  /** The gap of "hello" holds "ll", which is no onset: the boundary falls between the two. */
  lemma HelloBoundaries()
    ensures PlaceBoundariesSpec(English, Alphabet, CharUnits(English, "hello"), [1, 4]) == [3]
  {
    var toks := CharUnits(English, "hello");
    CharUnitsAt(English, "hello", 2);
    CharUnitsAt(English, "hello", 3);
    HelloCluster();
    HelloOnset();
    ClusterGap(English, Alphabet, toks, [1, 4], 0);
    assert Gaps(English, Alphabet, toks, [1, 4]) == [Some(3)];
    assert [Some(3)][..0] == [];
  }

  /** The units of a piece of the word spell that piece. */
  lemma {:induction false} PieceOfChars(rule: LanguageRule, word: string, a: nat, b: nat)
    requires a <= b <= |word|
    ensures Piece(CharUnits(rule, word), a, b) == word[a..b]
    decreases b
  {
    if a < b {
      PieceOfChars(rule, word, a, b - 1);
      CharUnitsAt(rule, word, b - 1);
      assert word[a..b] == word[a..b - 1] + [word[b - 1]];
    }
  }

  lemma HelloPieces()
    ensures Assemble(CharUnits(English, "hello"), [3], "-") == "hel-lo"
  {
    var w := "hello";
    OneBoundary(CharUnits(English, w), 3, "-");
    PieceOfChars(English, w, 0, 3);
    PieceOfChars(English, w, 3, 5);
    assert w[0..3] + "-" + w[3..5] == "hel-lo";
  }

  lemma HelloWord()
    ensures SyllabifyWordSpec(English, Alphabet, "hello", "-") == "hel-lo"
  {
    var w := "hello";
    PlainUnits(English, w);
    HelloNuclei();
    HelloBoundaries();
    HelloPieces();
    var toks := CharUnits(English, w);
    FindNucleiValid(English, Alphabet, toks);
    assert SyllabifyWordSpec(English, Alphabet, w, "-") == SyllabifyUnits(English, Alphabet, w, toks, [1, 4], "-");
  }

  /** The vowels of "problem" are its third and sixth units. */
  lemma ProblemVowels()
    ensures VowelNuclei(CharUnits(English, "problem")) == [2, 5]
  {
    var w := "problem";
    var toks := CharUnits(English, w);
    var v := VowelNuclei(toks);
    forall x: nat
      ensures x in v <==> x in [2, 5]
    {
      if x < 7 {
        CharUnitsAt(English, w, x);
        if x == 0 {} else if x == 1 {} else if x == 2 {} else if x == 3 {} else if x == 4 {} else if x == 5 {} else {}
      }
    }
    AscendingUnique(v, [2, 5]);
  }

  /** The nuclei of "problem" are its two vowels. */
  lemma ProblemNuclei()
    ensures FindNucleiSpec(English, Alphabet, CharUnits(English, "problem")) == [2, 5]
  {
    ProblemVowels();
    PlainNuclei(English, CharUnits(English, "problem"));
  }

  lemma ProblemCluster()
    ensures ClusterBetween(CharUnits(English, "problem"), 2, 5) == [3, 4]
  {
    CharUnitsAt(English, "problem", 3);
    CharUnitsAt(English, "problem", 4);
    TwoConsonants(CharUnits(English, "problem"), 2);
  }

  /** "bl" opens a syllable, after any vowel. */
  lemma ProblemOnset()
    ensures IsValidOnset(English, Alphabet, CharUnits(English, "problem"), "b", "l", 2)
  {
    LowerAt(Alphabet, "b");
    LowerAt(Alphabet, "l");
    assert Lower(Alphabet, "b") == "b" && Lower(Alphabet, "l") == "l";
    assert Lower(Alphabet, "b") + Lower(Alphabet, "l") == "bl";
  }

  /** The gap of "problem" holds "bl", a valid onset: the boundary falls before it. */
  lemma ProblemBoundaries()
    ensures PlaceBoundariesSpec(English, Alphabet, CharUnits(English, "problem"), [2, 5]) == [3]
  {
    var toks := CharUnits(English, "problem");
    CharUnitsAt(English, "problem", 3);
    CharUnitsAt(English, "problem", 4);
    ProblemCluster();
    ProblemOnset();
    ClusterGap(English, Alphabet, toks, [2, 5], 0);
    assert Gaps(English, Alphabet, toks, [2, 5]) == [Some(3)];
    assert [Some(3)][..0] == [];
  }

  lemma ProblemPieces()
    ensures Assemble(CharUnits(English, "problem"), [3], "-") == "pro-blem"
  {
    var w := "problem";
    OneBoundary(CharUnits(English, w), 3, "-");
    PieceOfChars(English, w, 0, 3);
    PieceOfChars(English, w, 3, 7);
    assert w[0..3] + "-" + w[3..7] == "pro-blem";
  }

  lemma ProblemWord()
    ensures SyllabifyWordSpec(English, Alphabet, "problem", "-") == "pro-blem"
  {
    var w := "problem";
    PlainUnits(English, w);
    ProblemNuclei();
    ProblemBoundaries();
    ProblemPieces();
    var toks := CharUnits(English, w);
    FindNucleiValid(English, Alphabet, toks);
    assert SyllabifyWordSpec(English, Alphabet, w, "-") == SyllabifyUnits(English, Alphabet, w, toks, [2, 5], "-");
  }

  /** Alone in a rule set, the rule keeps its unique characters: the set holds it unchanged. */
  lemma EnglishAlone()
    ensures BuildMetaRule([English]).rules == [English]
  {
    BuildMetaRuleUniqueChars([English], 0);
    var unique := BuildMetaRule([English]).rules[0].uniqueChars;
    assert unique == AllChars(English);
  }

  /** A text of letters and marks is a single WORD token. */
  lemma SingleWord(text: string)
    requires |text| > 0 && forall i :: 0 <= i < |text| ==> IsWordChar(Alphabet, text[i])
    ensures WordTokens(Alphabet, text) == [Token(text, Word)]
  {
    TokensFromStep(Alphabet, text, 0, |text|);
    assert text[0..|text|] == text;
  }

  lemma HelloLetters()
    ensures WordTokens(Alphabet, "hello") == [Token("hello", Word)]
  {
    var w := "hello";
    forall i | 0 <= i < |w|
      ensures IsWordChar(Alphabet, w[i])
    {
      if i == 0 {} else if i == 1 {} else if i == 2 {} else if i == 3 {} else {}
    }
    SingleWord(w);
  }

  lemma ProblemLetters()
    ensures WordTokens(Alphabet, "problem") == [Token("problem", Word)]
  {
    var w := "problem";
    forall i | 0 <= i < |w|
      ensures IsWordChar(Alphabet, w[i])
    {
      if i == 0 {} else if i == 1 {} else if i == 2 {} else if i == 3 {} else if i == 4 {} else if i == 5 {} else {}
    }
    SingleWord(w);
  }

  /** The text of one WORD token comes out as that word syllabified. */
  lemma SingleWordText(meta: MetaRule, text: string, lang: Option<string>, rule: LanguageRule)
    requires WordTokens(Alphabet, text) == [Token(text, Word)]
    requires ChosenRule(meta, Alphabet, text, lang) == Some(rule)
    ensures SyllabifyText(meta, Alphabet, "-", text, lang) == SyllabifyWordSpec(rule, Alphabet, text, "-")
  {
    var r := RenderedAll(rule, Alphabet, "-", [Token(text, Word)]);
    assert SyllabifyText(meta, Alphabet, "-", text, lang) == Concat(r);
    assert r == [SyllabifyWordSpec(rule, Alphabet, text, "-")];
    assert r[..0] == [];
    assert Concat(r) == Concat(r[..0]) + r[0];
  }

  /** `syllabify("problem", "eng")` is "pro-blem". */
  lemma ProblemInEnglish()
    ensures SyllabifyText(BuildMetaRule([English]), Alphabet, "-", "problem", Some("eng")) == "pro-blem"
  {
    EnglishAlone();
    assert RuleByLang([English], "eng") == Some(English);
    ProblemLetters();
    SingleWordText(BuildMetaRule([English]), "problem", Some("eng"), English);
    ProblemWord();
  }

  /** English covers a letter of "hello". */
  lemma HelloScore()
    ensures MatchScore(English, Alphabet, "hello").num > 0
  {
    CleanTextLetters(Alphabet, "hello");
    assert Alphabet.lower("hello"[0]) == 'h' && Alphabet.isLetter('h');
    assert 'h' in EnglishConsonants;
    MatchScorePositive(English, Alphabet, "hello");
  }

  /** Detection picks the only rule for "hello". */
  lemma HelloAutoDetect()
    ensures AutoDetect(BuildMetaRule([English]), Alphabet, "hello") == Some(English)
  {
    EnglishAlone();
    HelloScore();
    AutoDetectIsBest(BuildMetaRule([English]), Alphabet, "hello", 0);
  }

  /** `syllabify("hello")` detects the rule and gives "hel-lo". */
  lemma HelloDetected()
    ensures SyllabifyText(BuildMetaRule([English]), Alphabet, "-", "hello", None) == "hel-lo"
  {
    HelloAutoDetect();
    HelloLetters();
    SingleWordText(BuildMetaRule([English]), "hello", None, English);
    HelloWord();
  }
  lemma SignsAlone()
    ensures BuildMetaRule([Signs]).rules == [Signs]
  {
    BuildMetaRuleUniqueChars([Signs], 0);
    var unique := BuildMetaRule([Signs]).rules[0].uniqueChars;
    assert unique == AllChars(Signs);
  }

  lemma TwoSignsVowels()
    ensures VowelNuclei(CharUnits(Signs, TwoSigns)) == [0, 1]
  {
    var toks := CharUnits(Signs, TwoSigns);
    var v := VowelNuclei(toks);
    CharUnitsAt(Signs, TwoSigns, 0);
    CharUnitsAt(Signs, TwoSigns, 1);
    forall x: nat
      ensures x in v <==> x in [0, 1]
    {
    }
    AscendingUnique(v, [0, 1]);
  }

  /** The two signs are two vowels in hiatus, and the rule splits them. */
  lemma TwoSignsBoundaries()
    ensures ValidNuclei(CharUnits(Signs, TwoSigns), [0, 1])
    ensures PlaceBoundariesSpec(Signs, Alphabet, CharUnits(Signs, TwoSigns), [0, 1]) == [1]
  {
    var toks := CharUnits(Signs, TwoSigns);
    TwoSignsNuclei();
    FindNucleiValid(Signs, Alphabet, toks);
    HiatusGap(Signs, Alphabet, toks, [0, 1], 0);
    assert Gaps(Signs, Alphabet, toks, [0, 1]) == [Some(1)];
    assert [Some(1)][..0] == [];
  }

  lemma TwoSignsNuclei()
    ensures FindNucleiSpec(Signs, Alphabet, CharUnits(Signs, TwoSigns)) == [0, 1]
  {
    TwoSignsVowels();
    PlainNuclei(Signs, CharUnits(Signs, TwoSigns));
  }

  lemma TwoSignsPieces()
    ensures Assemble(CharUnits(Signs, TwoSigns), [1], "-") == [SignAa] + "-" + [SignAa]
  {
    OneBoundary(CharUnits(Signs, TwoSigns), 1, "-");
    PieceOfChars(Signs, TwoSigns, 0, 1);
    PieceOfChars(Signs, TwoSigns, 1, 2);
  }

  lemma TwoSignsWord()
    ensures SyllabifyWordSpec(Signs, Alphabet, TwoSigns, "-") == [SignAa] + "-" + [SignAa]
  {
    PlainUnits(Signs, TwoSigns);
    TwoSignsNuclei();
    TwoSignsBoundaries();
    TwoSignsPieces();
    var toks := CharUnits(Signs, TwoSigns);
    FindNucleiValid(Signs, Alphabet, toks);
    assert SyllabifyWordSpec(Signs, Alphabet, TwoSigns, "-") == SyllabifyUnits(Signs, Alphabet, TwoSigns, toks, [0, 1], "-");
  }

  /**
   * A text with no letter in it is still syllabified when its language is
   * given: two signs AA under a rule that counts the sign as a vowel and
   * splits a hiatus come back with a hyphen between them. Without the code
   * the same text comes back unchanged.
   */
  lemma MarksSplit()
    ensures forall i :: 0 <= i < |TwoSigns| ==> !Alphabet.isLetter(Alphabet.lower(TwoSigns[i]))
    ensures SyllabifyText(BuildMetaRule([Signs]), Alphabet, "-", TwoSigns, Some("hin")) == [SignAa] + "-" + [SignAa] != TwoSigns
    ensures SyllabifyText(BuildMetaRule([Signs]), Alphabet, "-", TwoSigns, None) == TwoSigns
  {
    SignsAlone();
    assert RuleByLang([Signs], "hin") == Some(Signs);
    SingleWord(TwoSigns);
    SingleWordText(BuildMetaRule([Signs]), TwoSigns, Some("hin"), Signs);
    TwoSignsWord();
    NoLettersAutoUnchanged(BuildMetaRule([Signs]), Alphabet, "-", TwoSigns);
  }
}
