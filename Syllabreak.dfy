/**
 * `Syllabreak`: the public entry point. It detects the languages of a text
 * and syllabifies a text word by word with one language rule, chosen by
 * its code or by detection.
 */
module Syllabreak {
  import opened Text
  import opened Tokens
  import opened LanguageRules
  import opened MetaRules
  import opened WordTokenizer
  import opened WordSyllabifiers

  /** `rules.find { it.lang == lang }`: the first rule with this language code. */
  function RuleByLang(rules: seq<LanguageRule>, lang: string): (r: Option<LanguageRule>)
    ensures r.Some? <==> exists i :: 0 <= i < |rules| && rules[i].lang == lang
    ensures r.Some? ==> exists i :: 0 <= i < |rules| && rules[i] == r.value && rules[i].lang == lang &&
                          forall j :: 0 <= j < i ==> rules[j].lang != lang
  {
    if |rules| == 0 then None
    else if rules[0].lang == lang then Some(rules[0])
    else
      var r := RuleByLang(rules[1..], lang);
      assert forall i :: 0 < i < |rules| ==> rules[i] == rules[1..][i - 1];
      r
  }

  /** `autoDetectRule`: the best-ranked rule, if any rule matches. */
  function AutoDetect(meta: MetaRule, u: Unicode, text: string): Option<LanguageRule>
  {
    var ranked := RankedRules(meta, u, text);
    if |ranked| == 0 then None else Some(ranked[0])
  }

  /** `detectLanguage`: the codes of the ranked rules, best first. */
  function DetectLanguageSpec(meta: MetaRule, u: Unicode, text: string): (langs: seq<string>)
    ensures |langs| == |RankedRules(meta, u, text)|
  {
    var ranked := RankedRules(meta, u, text);
    seq(|ranked|, k requires 0 <= k < |ranked| => ranked[k].lang)
  }

  /** The output for one token: a WORD syllabified, anything else verbatim. */
  function Rendered(rule: LanguageRule, u: Unicode, hyphen: string, t: Token): string
  {
    match t.tokenType
    case Word => SyllabifyWordSpec(rule, u, t.text, hyphen)
    case NonWord => t.text
  }

  /** The outputs of the tokens, in order. */
  function RenderedAll(rule: LanguageRule, u: Unicode, hyphen: string, tokens: seq<Token>): (r: seq<string>)
    ensures |r| == |tokens|
  {
    seq(|tokens|, k requires 0 <= k < |tokens| => Rendered(rule, u, hyphen, tokens[k]))
  }

  /** The rule `syllabify` uses: the one named by `lang`, or the detected one. */
  function ChosenRule(meta: MetaRule, u: Unicode, text: string, lang: Option<string>): Option<LanguageRule>
  {
    match lang
    case Some(code) => RuleByLang(meta.rules, code)
    case None => AutoDetect(meta, u, text)
  }

  /** `syllabify(text, lang)`. */
  function SyllabifyText(meta: MetaRule, u: Unicode, hyphen: string, text: string, lang: Option<string>): string
  {
    if |text| == 0 then text
    else
      match ChosenRule(meta, u, text, lang)
      case None => text
      case Some(rule) => Concat(RenderedAll(rule, u, hyphen, WordTokens(u, text)))
  }

  /** The empty text comes back unchanged. */
  lemma EmptyTextUnchanged(meta: MetaRule, u: Unicode, hyphen: string, lang: Option<string>)
    ensures SyllabifyText(meta, u, hyphen, "", lang) == ""
  {
  }

  /** A language code no rule carries leaves the text unchanged (no exception is raised). */
  lemma UnknownLangUnchanged(meta: MetaRule, u: Unicode, hyphen: string, text: string, code: string)
    requires forall i :: 0 <= i < |meta.rules| ==> meta.rules[i].lang != code
    ensures SyllabifyText(meta, u, hyphen, text, Some(code)) == text
  {
  }

  /** Detection finds a rule exactly when some rule covers a letter of the text. */
  lemma AutoDetectFinds(meta: MetaRule, u: Unicode, text: string)
    ensures AutoDetect(meta, u, text).Some? <==>
      exists i :: 0 <= i < |meta.rules| && MatchScore(meta.rules[i], u, text).num > 0
  {
    RankedScoresMembers(meta, u, text);
    var r := RankedScores(meta, u, text);
    if |r| > 0 {
      assert MatchScore(meta.rules[r[0].index], u, text).num > 0;
    }
  }

  /** Without a language code, a text that no rule covers comes back unchanged. */
  lemma NoMatchUnchanged(meta: MetaRule, u: Unicode, hyphen: string, text: string)
    requires forall i :: 0 <= i < |meta.rules| ==> MatchScore(meta.rules[i], u, text).num == 0
    ensures SyllabifyText(meta, u, hyphen, text, None) == text
  {
    AutoDetectFinds(meta, u, text);
  }

  /**
   * Without a language code, a text with no letter after lower-casing comes
   * back unchanged: no rule covers any of its letters. (With a code, a word
   * of combining marks alone is still syllabified: see `Examples.MarksSplit`.)
   */
  lemma NoLettersAutoUnchanged(meta: MetaRule, u: Unicode, hyphen: string, text: string)
    requires forall i :: 0 <= i < |text| ==> !u.isLetter(u.lower(text[i]))
    ensures SyllabifyText(meta, u, hyphen, text, None) == text
  {
    CleanTextLetters(u, text);
    forall i | 0 <= i < |meta.rules|
      ensures MatchScore(meta.rules[i], u, text).num == 0
    {
      MatchScorePositive(meta.rules[i], u, text);
    }
    NoMatchUnchanged(meta, u, hyphen, text);
  }

  /**
   * The detected rule has a positive score, and no matching rule scores
   * higher; on a tie it comes first in the rule set.
   */
  lemma AutoDetectIsBest(meta: MetaRule, u: Unicode, text: string, i: nat)
    requires i < |meta.rules| && MatchScore(meta.rules[i], u, text).num > 0
    ensures var r := RankedScores(meta, u, text);
      && |r| > 0
      && AutoDetect(meta, u, text) == Some(meta.rules[r[0].index])
      && MatchScore(meta.rules[r[0].index], u, text).num > 0
      && !Less(DetectionScore(meta.rules[r[0].index], u, text), DetectionScore(meta.rules[i], u, text))
      && ((r[0].index != i && !Less(DetectionScore(meta.rules[i], u, text), DetectionScore(meta.rules[r[0].index], u, text)))
            ==> r[0].index < i)
  {
    RankedScoresMembers(meta, u, text);
    RankedScoresOrder(meta, u, text);
    var r := RankedScores(meta, u, text);
    var k :| 0 <= k < |r| && r[k].index == i;
    if k > 0 {
      assert !Less(r[0].score, r[k].score);
    }
  }

  /** Every code `detectLanguage` lists belongs to a rule that covers a letter of the text. */
  lemma DetectLanguageSound(meta: MetaRule, u: Unicode, text: string, k: nat)
    requires k < |DetectLanguageSpec(meta, u, text)|
    ensures exists i :: (0 <= i < |meta.rules| && meta.rules[i].lang == DetectLanguageSpec(meta, u, text)[k] &&
                         MatchScore(meta.rules[i], u, text).num > 0)
  {
    RankedScoresMembers(meta, u, text);
    var i := RankedScores(meta, u, text)[k].index;
    assert RankedRules(meta, u, text)[k] == meta.rules[i];
    assert DetectLanguageSpec(meta, u, text)[k] == meta.rules[i].lang;
  }

  /** `detectLanguage` lists the code of every rule that covers a letter of the text. */
  lemma DetectLanguageComplete(meta: MetaRule, u: Unicode, text: string, i: nat)
    requires i < |meta.rules| && MatchScore(meta.rules[i], u, text).num > 0
    ensures meta.rules[i].lang in DetectLanguageSpec(meta, u, text)
  {
    RankedScoresMembers(meta, u, text);
    var r := RankedScores(meta, u, text);
    var k :| 0 <= k < |r| && r[k].index == i;
    assert RankedRules(meta, u, text)[k] == meta.rules[i];
    assert DetectLanguageSpec(meta, u, text)[k] == meta.rules[i].lang;
  }

  /** `detectLanguage` lists the codes in order of non-increasing detection score. */
  lemma DetectLanguageOrder(meta: MetaRule, u: Unicode, text: string, j: nat, k: nat)
    requires j < k < |RankedRules(meta, u, text)|
    ensures !Less(DetectionScore(RankedRules(meta, u, text)[j], u, text), DetectionScore(RankedRules(meta, u, text)[k], u, text))
  {
    RankedScoresMembers(meta, u, text);
    RankedScoresOrder(meta, u, text);
    var r := RankedScores(meta, u, text);
    var ranked := RankedRules(meta, u, text);
    assert ranked[j] == meta.rules[r[j].index] && ranked[k] == meta.rules[r[k].index];
    assert !Less(r[j].score, r[k].score);
  }

  lemma RenderedVerbatim(rule: LanguageRule, u: Unicode, tokens: seq<Token>)
    ensures RenderedAll(rule, u, "", tokens) == Texts(tokens)
  {
    forall k | 0 <= k < |tokens|
      ensures RenderedAll(rule, u, "", tokens)[k] == Texts(tokens)[k]
    {
      EmptyHyphenKeepsWord(rule, u, tokens[k].text);
    }
  }

  /** With an empty soft hyphen the text always comes back unchanged. */
  lemma EmptyHyphenUnchanged(meta: MetaRule, u: Unicode, text: string, lang: Option<string>)
    ensures SyllabifyText(meta, u, "", text, lang) == text
  {
    match ChosenRule(meta, u, text, lang)
    case None =>
    case Some(rule) =>
      RenderedVerbatim(rule, u, WordTokens(u, text));
      WordTokensRebuild(u, text);
  }

  lemma RenderedNonWords(rule: LanguageRule, u: Unicode, hyphen: string, tokens: seq<Token>)
    requires forall k :: 0 <= k < |tokens| ==> tokens[k].tokenType == NonWord
    ensures RenderedAll(rule, u, hyphen, tokens) == Texts(tokens)
  {
  }

  /**
   * A text without letters and combining marks is one NON_WORD token and
   * comes back unchanged, whichever rule is chosen.
   */
  lemma NoWordCharsUnchanged(meta: MetaRule, u: Unicode, hyphen: string, text: string, lang: Option<string>)
    requires forall i :: 0 <= i < |text| ==> !IsWordChar(u, text[i])
    ensures SyllabifyText(meta, u, hyphen, text, lang) == text
  {
    match ChosenRule(meta, u, text, lang)
    case None =>
    case Some(rule) =>
      var tokens := WordTokens(u, text);
      WordTokensWellFormed(u, text);
      WordTokensRebuild(u, text);
      forall k | 0 <= k < |tokens|
        ensures tokens[k].tokenType == NonWord
      {
        assert |tokens[k].text| > 0 && Homogeneous(u, tokens[k]);
        var c := tokens[k].text[0];
        ConcatMember(Texts(tokens), k);
        assert c in Texts(tokens)[k];
        var i :| 0 <= i < |text| && text[i] == c;
      }
      RenderedNonWords(rule, u, hyphen, tokens);
  }

  /**
   * The syllabified text is the texts of the tokens in order, each WORD
   * replaced by its syllables joined with the soft hyphen.
   */
  lemma SyllabifyTextJoinsWords(meta: MetaRule, u: Unicode, hyphen: string, text: string, lang: Option<string>, rule: LanguageRule)
    requires |text| > 0 && ChosenRule(meta, u, text, lang) == Some(rule)
    ensures var tokens := WordTokens(u, text);
      && SyllabifyText(meta, u, hyphen, text, lang) == Concat(RenderedAll(rule, u, hyphen, tokens))
      && Concat(Texts(tokens)) == text
      && forall k :: 0 <= k < |tokens| ==>
           RenderedAll(rule, u, hyphen, tokens)[k] ==
             if tokens[k].tokenType == Word then Join(SyllablesOf(rule, u, tokens[k].text), hyphen) else tokens[k].text
  {
    var tokens := WordTokens(u, text);
    WordTokensRebuild(u, text);
    forall k | 0 <= k < |tokens| && tokens[k].tokenType == Word
      ensures SyllabifyWordSpec(rule, u, tokens[k].text, hyphen) == Join(SyllablesOf(rule, u, tokens[k].text), hyphen)
    {
      SyllabifyWordJoinsSyllables(rule, u, tokens[k].text, hyphen);
    }
  }

  /** `Syllabreak`: a rule set and a soft hyphen. */
  class Syllabreak {
    const softHyphen: string
    const metaRule: MetaRule
    const u: Unicode

    /** The rules are passed in; reading `rules.yaml` is not modelled. */
    constructor(softHyphen: string, rules: seq<LanguageRule>, u: Unicode)
      ensures this.softHyphen == softHyphen && metaRule == BuildMetaRule(rules) && this.u == u
    {
      this.softHyphen := softHyphen;
      this.u := u;
      var meta := NewMetaRule(rules);
      this.metaRule := meta;
    }

    method DetectLanguage(text: string) returns (langs: seq<string>)
      ensures langs == DetectLanguageSpec(metaRule, u, text)
    {
      var matchingRules := FindMatches(metaRule, u, text);
      langs := seq(|matchingRules|, k requires 0 <= k < |matchingRules| => matchingRules[k].lang);
    }

    method AutoDetectRule(text: string) returns (rule: Option<LanguageRule>)
      ensures rule == AutoDetect(metaRule, u, text)
    {
      var matchingRules := FindMatches(metaRule, u, text);
      rule := if |matchingRules| == 0 then None else Some(matchingRules[0]);
    }

    method Syllabify(text: string, lang: Option<string>) returns (result: string)
      ensures result == SyllabifyText(metaRule, u, softHyphen, text, lang)
    {
      if |text| == 0 {
        return text;
      }
      var chosen: Option<LanguageRule>;
      if lang.Some? {
        chosen := RuleByLang(metaRule.rules, lang.value);
      } else {
        chosen := AutoDetectRule(text);
      }
      if chosen.None? {
        return text;
      }
      var rule := chosen.value;
      var syllabifier := new WordSyllabifier(rule, u);
      var tokens := Tokenize(u, text);
      result := JoinTokens(syllabifier, tokens);
    }

    /** `tokens.joinToString("") { ... }`: each WORD syllabified, anything else verbatim. */
    method JoinTokens(syllabifier: WordSyllabifier, tokens: seq<Token>) returns (result: string)
      ensures result == Concat(RenderedAll(syllabifier.rule, syllabifier.u, softHyphen, tokens))
    {
      ghost var rendered := RenderedAll(syllabifier.rule, syllabifier.u, softHyphen, tokens);
      result := "";
      for k := 0 to |tokens|
        invariant result == Concat(rendered[..k])
      {
        var token := tokens[k];
        var piece: string;
        if token.tokenType == Word {
          piece := syllabifier.SyllabifyWord(token.text, softHyphen);
        } else {
          piece := token.text;
        }
        assert rendered[..k + 1][..k] == rendered[..k];
        result := result + piece;
      }
      assert rendered[..|tokens|] == rendered;
    }
  }
}
