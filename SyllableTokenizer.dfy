/**
 * `SyllableTokenizer`: the split of one word into phonological units
 * (vowels, consonants, separators, other), consuming the word left to right
 * with a fixed priority of matchers.
 */
module SyllableTokenizers {
  import opened Text
  import opened Tokens
  import opened LanguageRules

  /** The tokenizer's mutable state: the units so far and the read position. */
  datatype Progress = Progress(tokens: seq<SyllableToken>, pos: nat)

  /** A unit covering `word[start..end]`, with no flags set. */
  function Unit(word: string, cls: TokenClass, start: nat, end: nat): (t: SyllableToken)
    requires start <= end <= |word|
    ensures t.surface == word[start..end] && t.tokenClass == cls
  {
    SyllableToken(word[start..end], cls, false, false, start, end)
  }

  /** `lowercase()` of the `len` characters at `pos`, when they exist. */
  predicate LoweredIn(u: Unicode, word: string, pos: nat, len: nat, strings: set<string>)
  {
    pos + len <= |word| && Lower(u, word)[pos..pos + len] in strings
  }

  /** `s.any { it in chars }`. */
  predicate AnyIn(s: string, chars: set<char>)
  {
    exists k :: 0 <= k < |s| && s[k] in chars
  }

  /**
   * `tryMatchLeftModifier`: a left-attaching modifier is glued to the
   * previous unit, or becomes a unit of its own (class OTHER) at the start.
   */
  function LeftModifier(rule: LanguageRule, u: Unicode, word: string, p: Progress): Option<Progress>
    requires p.pos < |word|
  {
    if Lower(u, word)[p.pos] !in rule.modifiersAttachLeft then None
    else if |p.tokens| > 0 then
      var last := p.tokens[|p.tokens| - 1];
      var last' := last.(surface := last.surface + [word[p.pos]], endIdx := p.pos + 1, isModifier := true);
      Some(Progress(p.tokens[..|p.tokens| - 1] + [last'], p.pos + 1))
    else
      Some(Progress([Unit(word, Other, p.pos, p.pos + 1).(isModifier := true)], p.pos + 1))
  }

  /** `tryMatchSeparator`: a separator character is a unit of class SEPARATOR. */
  function SeparatorUnit(rule: LanguageRule, u: Unicode, word: string, p: Progress): Option<Progress>
    requires p.pos < |word|
  {
    if Lower(u, word)[p.pos] !in rule.modifiersSeparators then None
    else Some(Progress(p.tokens + [Unit(word, TokenClass.Separator, p.pos, p.pos + 1)], p.pos + 1))
  }

  /** `tryMatchConsonantDigraph`: a listed digraph of length 2, else of length 1, is one CONSONANT. */
  function ConsonantDigraph(rule: LanguageRule, u: Unicode, word: string, p: Progress): Option<Progress>
    requires p.pos < |word|
  {
    if LoweredIn(u, word, p.pos, 2, rule.dontSplitDigraphs) then
      Some(Progress(p.tokens + [Unit(word, Consonant, p.pos, p.pos + 2)], p.pos + 2))
    else if LoweredIn(u, word, p.pos, 1, rule.dontSplitDigraphs) then
      Some(Progress(p.tokens + [Unit(word, Consonant, p.pos, p.pos + 1)], p.pos + 1))
    else None
  }

  /** The VOWEL unit of the `len` characters at `pos`, a glide if any of them is one. */
  function VowelUnit(rule: LanguageRule, u: Unicode, word: string, pos: nat, len: nat): (t: SyllableToken)
    requires pos + len <= |word|
  {
    Unit(word, Vowel, pos, pos + len).(isGlide := AnyIn(Lower(u, word)[pos..pos + len], rule.glides))
  }

  /** `tryMatchVowelDigraph`: a listed vowel sequence of length 3, else of length 2, is one VOWEL. */
  function VowelDigraph(rule: LanguageRule, u: Unicode, word: string, p: Progress): Option<Progress>
    requires p.pos < |word|
  {
    if LoweredIn(u, word, p.pos, 3, rule.digraphVowels) then
      Some(Progress(p.tokens + [VowelUnit(rule, u, word, p.pos, 3)], p.pos + 3))
    else if LoweredIn(u, word, p.pos, 2, rule.digraphVowels) then
      Some(Progress(p.tokens + [VowelUnit(rule, u, word, p.pos, 2)], p.pos + 2))
    else None
  }

  /** The class of a single lowered character. */
  function ClassOf(rule: LanguageRule, c: char): TokenClass
  {
    if c in rule.vowels then Vowel
    else if c in rule.consonants then Consonant
    else Other
  }

  /**
   * `addSingleCharacterToken`: one character, classed by the inventories,
   * absorbing a right-attaching modifier that follows it.
   */
  function SingleCharacter(rule: LanguageRule, u: Unicode, word: string, p: Progress): Progress
    requires p.pos < |word|
  {
    var c := Lower(u, word)[p.pos];
    var t := Unit(word, ClassOf(rule, c), p.pos, p.pos + 1).(isGlide := c in rule.glides);
    if p.pos + 1 < |word| && Lower(u, word)[p.pos + 1] in rule.modifiersAttachRight then
      Progress(p.tokens + [t.(surface := t.surface + [word[p.pos + 1]], endIdx := p.pos + 2, isModifier := true)], p.pos + 2)
    else
      Progress(p.tokens + [t], p.pos + 1)
  }

  /** One iteration of the loop of `tokenize`: the first matcher that applies. */
  function Step(rule: LanguageRule, u: Unicode, word: string, p: Progress): (q: Progress)
    requires p.pos < |word|
    ensures p.pos + 1 <= q.pos <= p.pos + 3 && q.pos <= |word|
  {
    match LeftModifier(rule, u, word, p)
    case Some(q) => q
    case None =>
      match SeparatorUnit(rule, u, word, p)
      case Some(q) => q
      case None =>
        match ConsonantDigraph(rule, u, word, p)
        case Some(q) => q
        case None =>
          match VowelDigraph(rule, u, word, p)
          case Some(q) => q
          case None => SingleCharacter(rule, u, word, p)
  }

  /** The loop of `tokenize`, run from `p` to the end of the word. */
  function RunFrom(rule: LanguageRule, u: Unicode, word: string, p: Progress): (q: Progress)
    requires p.pos <= |word|
    ensures q.pos == |word|
    decreases |word| - p.pos
  {
    if p.pos == |word| then p else RunFrom(rule, u, word, Step(rule, u, word, p))
  }

  /** The units of `word`. */
  function SyllableTokens(rule: LanguageRule, u: Unicode, word: string): seq<SyllableToken>
  {
    RunFrom(rule, u, word, Progress([], 0)).tokens
  }

  /**
   * The units tile `word[..pos]`: each covers a nonempty span
   * `[startIdx, endIdx)` whose text is its surface, the first starts at 0,
   * each starts where the previous ends, and the last ends at `pos`.
   */
  predicate TilesUpTo(word: string, toks: seq<SyllableToken>, pos: nat)
    decreases |toks|
  {
    if |toks| == 0 then pos == 0
    else
      var last := toks[|toks| - 1];
      && last.endIdx == pos
      && last.startIdx < pos <= |word|
      && last.surface == word[last.startIdx..pos]
      && TilesUpTo(word, toks[..|toks| - 1], last.startIdx)
  }

  lemma TilesAppend(word: string, toks: seq<SyllableToken>, pos: nat, t: SyllableToken)
    requires TilesUpTo(word, toks, pos)
    requires t.startIdx == pos < t.endIdx <= |word| && t.surface == word[pos..t.endIdx]
    ensures TilesUpTo(word, toks + [t], t.endIdx)
  {
    assert (toks + [t])[..|toks|] == toks;
  }

  lemma LeftModifierTiles(rule: LanguageRule, u: Unicode, word: string, p: Progress)
    requires p.pos < |word| && TilesUpTo(word, p.tokens, p.pos)
    requires LeftModifier(rule, u, word, p).Some?
    ensures var q := LeftModifier(rule, u, word, p).value; TilesUpTo(word, q.tokens, q.pos)
  {
    var n := |p.tokens|;
    if n > 0 {
      var last := p.tokens[n - 1];
      var q := LeftModifier(rule, u, word, p).value;
      assert q.tokens[..n - 1] == p.tokens[..n - 1];
      assert word[last.startIdx..p.pos + 1] == word[last.startIdx..p.pos] + [word[p.pos]];
    }
  }

  lemma SingleCharacterTiles(rule: LanguageRule, u: Unicode, word: string, p: Progress)
    requires p.pos < |word| && TilesUpTo(word, p.tokens, p.pos)
    ensures var q := SingleCharacter(rule, u, word, p); TilesUpTo(word, q.tokens, q.pos)
  {
    var q := SingleCharacter(rule, u, word, p);
    var t := q.tokens[|q.tokens| - 1];
    assert q.tokens == p.tokens + [t];
    if q.pos == p.pos + 2 {
      assert word[p.pos..p.pos + 2] == word[p.pos..p.pos + 1] + [word[p.pos + 1]];
    }
    TilesAppend(word, p.tokens, p.pos, t);
  }

  lemma AppendedTiles(word: string, p: Progress, q: Progress)
    requires TilesUpTo(word, p.tokens, p.pos)
    requires |q.tokens| == |p.tokens| + 1 && q.tokens[..|p.tokens|] == p.tokens
    requires var t := q.tokens[|p.tokens|];
      t.startIdx == p.pos < t.endIdx == q.pos <= |word| && t.surface == word[p.pos..q.pos]
    ensures TilesUpTo(word, q.tokens, q.pos)
  {
  }

  lemma SeparatorTiles(rule: LanguageRule, u: Unicode, word: string, p: Progress)
    requires p.pos < |word| && TilesUpTo(word, p.tokens, p.pos)
    requires SeparatorUnit(rule, u, word, p).Some?
    ensures var q := SeparatorUnit(rule, u, word, p).value; TilesUpTo(word, q.tokens, q.pos)
  {
    var q := SeparatorUnit(rule, u, word, p).value;
    assert q.tokens[..|p.tokens|] == p.tokens;
    AppendedTiles(word, p, q);
  }

  lemma ConsonantDigraphTiles(rule: LanguageRule, u: Unicode, word: string, p: Progress)
    requires p.pos < |word| && TilesUpTo(word, p.tokens, p.pos)
    requires ConsonantDigraph(rule, u, word, p).Some?
    ensures var q := ConsonantDigraph(rule, u, word, p).value; TilesUpTo(word, q.tokens, q.pos)
  {
    var q := ConsonantDigraph(rule, u, word, p).value;
    assert q.tokens[..|p.tokens|] == p.tokens;
    AppendedTiles(word, p, q);
  }

  lemma VowelDigraphTiles(rule: LanguageRule, u: Unicode, word: string, p: Progress)
    requires p.pos < |word| && TilesUpTo(word, p.tokens, p.pos)
    requires VowelDigraph(rule, u, word, p).Some?
    ensures var q := VowelDigraph(rule, u, word, p).value; TilesUpTo(word, q.tokens, q.pos)
  {
    var q := VowelDigraph(rule, u, word, p).value;
    assert q.tokens[..|p.tokens|] == p.tokens;
    AppendedTiles(word, p, q);
  }

  /** Every step keeps the units tiling the consumed prefix. */
  lemma StepTiles(rule: LanguageRule, u: Unicode, word: string, p: Progress)
    requires p.pos < |word| && TilesUpTo(word, p.tokens, p.pos)
    ensures var q := Step(rule, u, word, p); TilesUpTo(word, q.tokens, q.pos)
  {
    if LeftModifier(rule, u, word, p).Some? {
      LeftModifierTiles(rule, u, word, p);
    } else if SeparatorUnit(rule, u, word, p).Some? {
      SeparatorTiles(rule, u, word, p);
    } else if ConsonantDigraph(rule, u, word, p).Some? {
      ConsonantDigraphTiles(rule, u, word, p);
    } else if VowelDigraph(rule, u, word, p).Some? {
      VowelDigraphTiles(rule, u, word, p);
    } else {
      SingleCharacterTiles(rule, u, word, p);
    }
  }

  lemma {:induction false} RunFromTiles(rule: LanguageRule, u: Unicode, word: string, p: Progress)
    requires p.pos <= |word| && TilesUpTo(word, p.tokens, p.pos)
    ensures var q := RunFrom(rule, u, word, p); TilesUpTo(word, q.tokens, |word|)
    decreases |word| - p.pos
  {
    if p.pos < |word| {
      StepTiles(rule, u, word, p);
      RunFromTiles(rule, u, word, Step(rule, u, word, p));
    }
  }

  /** Tiling units spell the prefix they tile. */
  lemma {:induction false} TilesSpell(word: string, toks: seq<SyllableToken>, pos: nat)
    requires TilesUpTo(word, toks, pos)
    ensures Concat(Surfaces(toks)) == word[..pos]
    decreases |toks|
  {
    if |toks| > 0 {
      var n := |toks|;
      var last := toks[n - 1];
      TilesSpell(word, toks[..n - 1], last.startIdx);
      assert Surfaces(toks)[..n - 1] == Surfaces(toks[..n - 1]);
      assert word[..pos] == word[..last.startIdx] + word[last.startIdx..pos];
    }
  }

  /** Tiling units have nonempty, adjacent, in-order spans starting at 0. */
  lemma {:induction false} TilesSpans(word: string, toks: seq<SyllableToken>, pos: nat)
    requires TilesUpTo(word, toks, pos)
    ensures forall k :: 0 <= k < |toks| ==>
      toks[k].startIdx < toks[k].endIdx <= pos && toks[k].surface == word[toks[k].startIdx..toks[k].endIdx]
    ensures forall k :: 0 < k < |toks| ==> toks[k - 1].endIdx == toks[k].startIdx
    ensures |toks| > 0 ==> toks[0].startIdx == 0 && toks[|toks| - 1].endIdx == pos
    decreases |toks|
  {
    if |toks| > 0 {
      var n := |toks|;
      var front := toks[..n - 1];
      TilesSpans(word, front, toks[n - 1].startIdx);
      assert forall k :: 0 <= k < n - 1 ==> toks[k] == front[k];
    }
  }

  /**
   * Every character of the word is consumed exactly once: the units spell
   * the word and their spans tile `[0, |word|)` in order.
   */
  lemma SyllableTokensTile(rule: LanguageRule, u: Unicode, word: string)
    ensures Concat(Surfaces(SyllableTokens(rule, u, word))) == word
    ensures TilesUpTo(word, SyllableTokens(rule, u, word), |word|)
  {
    RunFromTiles(rule, u, word, Progress([], 0));
    TilesSpell(word, SyllableTokens(rule, u, word), |word|);
    assert word[..|word|] == word;
  }

  /**
   * A step either glues a left modifier onto the last unit (which it only
   * does when one exists) or appends exactly one unit; earlier units never
   * change.
   */
  lemma StepKeepsEarlierUnits(rule: LanguageRule, u: Unicode, word: string, p: Progress)
    requires p.pos < |word|
    ensures var q := Step(rule, u, word, p);
      if Lower(u, word)[p.pos] in rule.modifiersAttachLeft && |p.tokens| > 0 then
        var last := p.tokens[|p.tokens| - 1];
        && q.pos == p.pos + 1
        && |q.tokens| == |p.tokens|
        && q.tokens[..|p.tokens| - 1] == p.tokens[..|p.tokens| - 1]
        && q.tokens[|p.tokens| - 1] == last.(surface := last.surface + [word[p.pos]], endIdx := p.pos + 1, isModifier := true)
      else
        && |q.tokens| == |p.tokens| + 1
        && q.tokens[..|p.tokens|] == p.tokens
        && q.tokens[|p.tokens|].startIdx == p.pos
        && q.tokens[|p.tokens|].endIdx == q.pos
  {
    var q := Step(rule, u, word, p);
    if !(Lower(u, word)[p.pos] in rule.modifiersAttachLeft && |p.tokens| > 0) {
      assert (p.tokens + [q.tokens[|p.tokens|]])[..|p.tokens|] == p.tokens;
    }
  }

  /**
   * The class a unit gets: a left modifier at the start is OTHER; a
   * separator is SEPARATOR; a listed digraph (length 2 tried before 1) is
   * CONSONANT; a listed vowel sequence (length 3 tried before 2) is VOWEL
   * and a glide exactly when one of its characters is; otherwise the single
   * character's class, VOWEL before CONSONANT before OTHER, with a glide
   * flag exactly when it is a glide.
   */
  lemma StepClass(rule: LanguageRule, u: Unicode, word: string, p: Progress)
    requires p.pos < |word|
    requires !(Lower(u, word)[p.pos] in rule.modifiersAttachLeft && |p.tokens| > 0)
    ensures var q := Step(rule, u, word, p);
      var t := q.tokens[|q.tokens| - 1];
      var c := Lower(u, word)[p.pos];
      var lower := Lower(u, word);
      |q.tokens| == |p.tokens| + 1 &&
      if c in rule.modifiersAttachLeft then
        t.tokenClass == Other && t.isModifier && q.pos == p.pos + 1
      else if c in rule.modifiersSeparators then
        t.tokenClass == TokenClass.Separator && q.pos == p.pos + 1
      else if p.pos + 2 <= |word| && lower[p.pos..p.pos + 2] in rule.dontSplitDigraphs then
        t.tokenClass == Consonant && q.pos == p.pos + 2
      else if [c] in rule.dontSplitDigraphs then
        t.tokenClass == Consonant && q.pos == p.pos + 1
      else if p.pos + 3 <= |word| && lower[p.pos..p.pos + 3] in rule.digraphVowels then
        t.tokenClass == Vowel && q.pos == p.pos + 3 &&
        (t.isGlide <==> exists k :: p.pos <= k < p.pos + 3 && lower[k] in rule.glides)
      else if p.pos + 2 <= |word| && lower[p.pos..p.pos + 2] in rule.digraphVowels then
        t.tokenClass == Vowel && q.pos == p.pos + 2 &&
        (t.isGlide <==> exists k :: p.pos <= k < p.pos + 2 && lower[k] in rule.glides)
      else
        t.tokenClass == ClassOf(rule, c) && (t.isGlide <==> c in rule.glides) &&
        (q.pos == p.pos + 2 <==> p.pos + 1 < |word| && Lower(u, word)[p.pos + 1] in rule.modifiersAttachRight)
  {
    var lower := Lower(u, word);
    assert lower[p.pos..p.pos + 1] == [Lower(u, word)[p.pos]];
    var q := Step(rule, u, word, p);
    var t := q.tokens[|q.tokens| - 1];
    if p.pos + 3 <= |word| && lower[p.pos..p.pos + 3] in rule.digraphVowels {
      GlideWitness(lower, p.pos, 3, rule.glides);
    } else if p.pos + 2 <= |word| && lower[p.pos..p.pos + 2] in rule.digraphVowels {
      GlideWitness(lower, p.pos, 2, rule.glides);
    }
  }

  lemma GlideWitness(lower: string, pos: nat, len: nat, glides: set<char>)
    requires pos + len <= |lower|
    ensures AnyIn(lower[pos..pos + len], glides) <==> exists k :: pos <= k < pos + len && lower[k] in glides
  {
    var s := lower[pos..pos + len];
    if AnyIn(s, glides) {
      var k :| 0 <= k < |s| && s[k] in glides;
      assert lower[pos + k] == s[k];
    }
    if exists k :: pos <= k < pos + len && lower[k] in glides {
      var k :| pos <= k < pos + len && lower[k] in glides;
      assert s[k - pos] == lower[k];
    }
  }

  /**
   * The tokenizer object: the word, its lowered copy, the units found so
   * far and the read position, which `tokenize` advances to the end.
   */
  class SyllableTokenizer {
    const word: string
    const rule: LanguageRule
    const u: Unicode
    const wordLower: string
    var tokens: seq<SyllableToken>
    var pos: nat

    ghost predicate Valid()
      reads this
    {
      wordLower == Lower(u, word) && TilesUpTo(word, tokens, pos)
    }

    function State(): Progress
      reads this
    {
      Progress(tokens, pos)
    }

    constructor(word: string, rule: LanguageRule, u: Unicode)
      ensures Valid()
      ensures this.word == word && this.rule == rule && this.u == u
      ensures tokens == [] && pos == 0
    {
      this.word := word;
      this.rule := rule;
      this.u := u;
      this.wordLower := Lower(u, word);
      tokens := [];
      pos := 0;
    }

    /** Runs the matchers until the word is consumed and returns the units. */
    method Tokenize() returns (result: seq<SyllableToken>)
      requires Valid()
      modifies this
      ensures Valid() && result == tokens
      ensures State() == RunFrom(rule, u, word, old(State()))
    {
      while pos < |word|
        invariant Valid()
        invariant RunFrom(rule, u, word, State()) == RunFrom(rule, u, word, old(State()))
        decreases |word| - pos
      {
        ghost var before := State();
        StepTiles(rule, u, word, before);
        var matched := TryMatchLeftModifier();
        if matched {
          continue;
        }
        matched := TryMatchSeparator();
        if matched {
          continue;
        }
        matched := TryMatchConsonantDigraph();
        if matched {
          continue;
        }
        matched := TryMatchVowelDigraph();
        if matched {
          continue;
        }
        AddSingleCharacterToken();
      }
      result := tokens;
    }

    method TryMatchLeftModifier() returns (matched: bool)
      requires Valid() && pos < |word|
      modifies this
      ensures Valid()
      ensures matched == LeftModifier(rule, u, word, old(State())).Some?
      ensures State() == if matched then LeftModifier(rule, u, word, old(State())).value else old(State())
    {
      var c := wordLower[pos];
      if c !in rule.modifiersAttachLeft {
        return false;
      }
      LeftModifierTiles(rule, u, word, State());
      if |tokens| > 0 {
        var last := tokens[|tokens| - 1];
        tokens := tokens[..|tokens| - 1] + [last.(surface := last.surface + [word[pos]], endIdx := pos + 1, isModifier := true)];
      } else {
        tokens := tokens + [SyllableToken([word[pos]], Other, false, true, pos, pos + 1)];
      }
      pos := pos + 1;
      return true;
    }

    method TryMatchSeparator() returns (matched: bool)
      requires Valid() && pos < |word|
      modifies this
      ensures Valid()
      ensures matched == SeparatorUnit(rule, u, word, old(State())).Some?
      ensures State() == if matched then SeparatorUnit(rule, u, word, old(State())).value else old(State())
    {
      var c := wordLower[pos];
      if c !in rule.modifiersSeparators {
        return false;
      }
      TilesAppend(word, tokens, pos, Unit(word, TokenClass.Separator, pos, pos + 1));
      tokens := tokens + [SyllableToken([word[pos]], TokenClass.Separator, false, false, pos, pos + 1)];
      pos := pos + 1;
      return true;
    }

    method TryMatchConsonantDigraph() returns (matched: bool)
      requires Valid() && pos < |word|
      modifies this
      ensures Valid()
      ensures matched == ConsonantDigraph(rule, u, word, old(State())).Some?
      ensures State() == if matched then ConsonantDigraph(rule, u, word, old(State())).value else old(State())
    {
      var lengths := [2, 1];
      for i := 0 to |lengths|
        invariant State() == old(State())
        invariant i >= 1 ==> !LoweredIn(u, word, pos, 2, rule.dontSplitDigraphs)
        invariant i >= 2 ==> !LoweredIn(u, word, pos, 1, rule.dontSplitDigraphs)
      {
        var length := lengths[i];
        if pos + length > |word| {
          continue;
        }
        var substr := wordLower[pos..pos + length];
        if substr in rule.dontSplitDigraphs {
          TilesAppend(word, tokens, pos, Unit(word, Consonant, pos, pos + length));
          tokens := tokens + [SyllableToken(word[pos..pos + length], Consonant, false, false, pos, pos + length)];
          pos := pos + length;
          return true;
        }
      }
      return false;
    }

    method TryMatchVowelDigraph() returns (matched: bool)
      requires Valid() && pos < |word|
      modifies this
      ensures Valid()
      ensures matched == VowelDigraph(rule, u, word, old(State())).Some?
      ensures State() == if matched then VowelDigraph(rule, u, word, old(State())).value else old(State())
    {
      var lengths := [3, 2];
      for i := 0 to |lengths|
        invariant State() == old(State())
        invariant i >= 1 ==> !LoweredIn(u, word, pos, 3, rule.digraphVowels)
        invariant i >= 2 ==> !LoweredIn(u, word, pos, 2, rule.digraphVowels)
      {
        var length := lengths[i];
        if pos + length > |word| {
          continue;
        }
        var substr := wordLower[pos..pos + length];
        if substr in rule.digraphVowels {
          var isGlide := false;
          for k := 0 to |substr|
            invariant isGlide <==> exists m :: 0 <= m < k && substr[m] in rule.glides
          {
            if substr[k] in rule.glides {
              isGlide := true;
            }
          }
          TilesAppend(word, tokens, pos, VowelUnit(rule, u, word, pos, length));
          tokens := tokens + [SyllableToken(word[pos..pos + length], Vowel, isGlide, false, pos, pos + length)];
          pos := pos + length;
          return true;
        }
      }
      return false;
    }

    method AddSingleCharacterToken()
      requires Valid() && pos < |word|
      modifies this
      ensures Valid()
      ensures State() == SingleCharacter(rule, u, word, old(State()))
    {
      ghost var start := State();
      ghost var expected := SingleCharacter(rule, u, word, start);
      ghost var before := tokens;
      assert word[pos..pos + 1] == [word[pos]];
      var c := wordLower[pos];
      var tokenClass := if c in rule.vowels then Vowel else if c in rule.consonants then Consonant else Other;
      var isGlide := c in rule.glides;
      assert tokenClass == ClassOf(rule, c);
      tokens := tokens + [SyllableToken([word[pos]], tokenClass, isGlide, false, pos, pos + 1)];
      if pos + 1 < |word| && wordLower[pos + 1] in rule.modifiersAttachRight {
        var last := tokens[|tokens| - 1];
        assert tokens[..|tokens| - 1] == before;
        tokens := tokens[..|tokens| - 1] + [last.(surface := last.surface + [word[pos + 1]], endIdx := pos + 2, isModifier := true)];
        pos := pos + 1;
      }
      pos := pos + 1;
      assert State() == expected;
      SingleCharacterTiles(rule, u, word, start);
    }
  }
}
