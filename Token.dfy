/** The token types of `Token.kt`: word-level tokens and grapheme units. */
module Tokens {

  datatype TokenType = Word | NonWord

  datatype TokenClass = Vowel | Consonant | Separator | Other

  /** A span of the input text, classified as a word or not. */
  datatype Token = Token(text: string, tokenType: TokenType)

  /**
   * One phonological unit of a word: its surface (original casing), its
   * class, two flags, and the half-open span `[startIdx, endIdx)` of the word
   * it covers.
   */
  datatype SyllableToken = SyllableToken(
    surface: string,
    tokenClass: TokenClass,
    isGlide: bool,
    isModifier: bool,
    startIdx: nat,
    endIdx: nat)

  function Surfaces(toks: seq<SyllableToken>): (r: seq<string>)
    ensures |r| == |toks|
    ensures forall i :: 0 <= i < |toks| ==> r[i] == toks[i].surface
  {
    seq(|toks|, i requires 0 <= i < |toks| => toks[i].surface)
  }

  function Texts(tokens: seq<Token>): (r: seq<string>)
    ensures |r| == |tokens|
    ensures forall i :: 0 <= i < |tokens| ==> r[i] == tokens[i].text
  {
    seq(|tokens|, i requires 0 <= i < |tokens| => tokens[i].text)
  }
}
