/**
 * `WordSyllabifier` and `WordSyllabification`: one word is split into
 * units, its nuclei are found, boundaries are placed between them and the
 * units are written out with a soft hyphen before every boundary unit.
 */
module WordSyllabifiers {
  import opened Text
  import opened Tokens
  import opened LanguageRules
  import opened SyllableTokenizers
  import opened Nuclei
  import opened Boundaries

  /** The surfaces of the units with index in `a..b-1` that exist, in order. */
  function Piece(toks: seq<SyllableToken>, a: nat, b: nat): string
    decreases b
  {
    if b <= a then ""
    else Piece(toks, a, b - 1) + (if b - 1 < |toks| then toks[b - 1].surface else "")
  }

  lemma {:induction false} PieceSplit(toks: seq<SyllableToken>, a: nat, b: nat, c: nat)
    requires a <= b <= c
    ensures Piece(toks, a, b) + Piece(toks, b, c) == Piece(toks, a, c)
    decreases c
  {
    if c > b {
      PieceSplit(toks, a, b, c - 1);
    }
  }

  lemma {:induction false} PieceIsPrefix(toks: seq<SyllableToken>, n: nat)
    requires n <= |toks|
    ensures Piece(toks, 0, n) == Concat(Surfaces(toks[..n]))
  {
    if n > 0 {
      PieceIsPrefix(toks, n - 1);
      assert Surfaces(toks[..n])[..n - 1] == Surfaces(toks[..n - 1]);
    }
  }

  /** A piece holding at least one unit with a nonempty surface is nonempty. */
  lemma PieceNonEmpty(toks: seq<SyllableToken>, a: nat, b: nat)
    requires a < b <= |toks| && |toks[b - 1].surface| > 0
    ensures |Piece(toks, a, b)| > 0
  {
  }

  /** The syllables of the units cut before each unit index in `bs`. */
  function Syllables(toks: seq<SyllableToken>, bs: seq<nat>): (ss: seq<string>)
    ensures |ss| == |bs| + 1
  {
    seq(|bs| + 1, i requires 0 <= i <= |bs| => Piece(toks, SyllableStart(bs, i), SyllableEnd(bs, i, |toks|)))
  }

  /** What the boundary loop of `syllabify` has written after the first `m` boundaries. */
  function Written(toks: seq<SyllableToken>, bs: seq<nat>, m: nat, hyphen: string): string
    requires m <= |bs|
  {
    if m == 0 then ""
    else Written(toks, bs, m - 1, hyphen) + Piece(toks, SyllableStart(bs, m - 1), bs[m - 1]) + hyphen
  }

  /** The text `syllabify` builds from the units and the boundaries. */
  function Assemble(toks: seq<SyllableToken>, bs: seq<nat>, hyphen: string): string
  {
    Written(toks, bs, |bs|, hyphen) + Piece(toks, SyllableStart(bs, |bs|), |toks|)
  }

  lemma {:induction false} WrittenIsJoinTerminated(toks: seq<SyllableToken>, bs: seq<nat>, m: nat, hyphen: string)
    requires m <= |bs|
    ensures Written(toks, bs, m, hyphen) == JoinTerminated(Syllables(toks, bs)[..m], hyphen)
  {
    if m > 0 {
      WrittenIsJoinTerminated(toks, bs, m - 1, hyphen);
      var ss := Syllables(toks, bs);
      assert ss[..m][..m - 1] == ss[..m - 1];
    }
  }

  /** The assembled text is the syllables joined by the hyphen. */
  lemma AssembleIsJoin(toks: seq<SyllableToken>, bs: seq<nat>, hyphen: string)
    ensures Assemble(toks, bs, hyphen) == Join(Syllables(toks, bs), hyphen)
  {
    WrittenIsJoinTerminated(toks, bs, |bs|, hyphen);
    var ss := Syllables(toks, bs);
    assert ss[..|ss| - 1] == ss[..|bs|];
  }

  lemma {:induction false} SyllablesPrefix(toks: seq<SyllableToken>, bs: seq<nat>, m: nat)
    requires StrictlyIncreasing(bs) && (forall b :: b in bs ==> b <= |toks|)
    requires m <= |bs| + 1
    ensures Concat(Syllables(toks, bs)[..m]) == Piece(toks, 0, if m <= |bs| then SyllableStart(bs, m) else |toks|)
  {
    if m > 0 {
      SyllablesPrefix(toks, bs, m - 1);
      var ss := Syllables(toks, bs);
      assert ss[..m][..m - 1] == ss[..m - 1];
      var a := SyllableStart(bs, m - 1);
      var c := SyllableEnd(bs, m - 1, |toks|);
      if m - 1 > 0 {
        assert bs[m - 2] in bs;
      }
      if m - 1 < |bs| {
        assert bs[m - 1] in bs;
      }
      PieceSplit(toks, 0, a, c);
    }
  }

  /** Cut at ascending unit indices, the syllables spell all the units. */
  lemma SyllablesSpell(toks: seq<SyllableToken>, bs: seq<nat>)
    requires StrictlyIncreasing(bs) && (forall b :: b in bs ==> b <= |toks|)
    ensures Concat(Syllables(toks, bs)) == Concat(Surfaces(toks))
  {
    SyllablesPrefix(toks, bs, |bs| + 1);
    var ss := Syllables(toks, bs);
    assert ss[..|bs| + 1] == ss;
    PieceIsPrefix(toks, |toks|);
    assert toks[..|toks|] == toks;
  }

  /** `syllabify()` of a `WordSyllabification` with these units and nuclei. */
  function SyllabifyUnits(rule: LanguageRule, u: Unicode, word: string, toks: seq<SyllableToken>, nuclei: seq<nat>, hyphen: string): string
    requires ValidNuclei(toks, nuclei)
  {
    if |nuclei| == 0 then word
    else
      var bs := PlaceBoundariesSpec(rule, u, toks, nuclei);
      if |bs| == 0 then word else Assemble(toks, bs, hyphen)
  }

  lemma SyllabifyUnitsAssembles(rule: LanguageRule, u: Unicode, word: string, toks: seq<SyllableToken>, nuclei: seq<nat>, hyphen: string)
    requires ValidNuclei(toks, nuclei) && |nuclei| > 0 && |PlaceBoundariesSpec(rule, u, toks, nuclei)| > 0
    ensures SyllabifyUnits(rule, u, word, toks, nuclei, hyphen) == Assemble(toks, PlaceBoundariesSpec(rule, u, toks, nuclei), hyphen)
  {
  }

  /** `WordSyllabifier.syllabifyWord`. */
  function SyllabifyWordSpec(rule: LanguageRule, u: Unicode, word: string, hyphen: string): string
  {
    var toks := SyllableTokens(rule, u, word);
    var nuclei := FindNucleiSpec(rule, u, toks);
    FindNucleiValid(rule, u, toks);
    SyllabifyUnits(rule, u, word, toks, nuclei, hyphen)
  }

  /** The syllables of a word with these units and nuclei: the whole word when there is no nucleus or no boundary. */
  function UnitSyllables(rule: LanguageRule, u: Unicode, word: string, toks: seq<SyllableToken>, nuclei: seq<nat>): seq<string>
    requires ValidNuclei(toks, nuclei)
  {
    if |nuclei| == 0 then [word]
    else
      var bs := PlaceBoundariesSpec(rule, u, toks, nuclei);
      if |bs| == 0 then [word] else Syllables(toks, bs)
  }

  /** The syllables of `word`. */
  function SyllablesOf(rule: LanguageRule, u: Unicode, word: string): seq<string>
  {
    var toks := SyllableTokens(rule, u, word);
    FindNucleiValid(rule, u, toks);
    UnitSyllables(rule, u, word, toks, FindNucleiSpec(rule, u, toks))
  }

  lemma SurfacesNonEmpty(word: string, toks: seq<SyllableToken>)
    requires TilesUpTo(word, toks, |word|)
    ensures forall k :: 0 <= k < |toks| ==> |toks[k].surface| > 0
  {
    TilesSpans(word, toks, |word|);
  }

  /** Every syllable cut by `placeBoundaries` is nonempty and holds a nucleus. */
  lemma SyllablesNonEmpty(rule: LanguageRule, u: Unicode, word: string, toks: seq<SyllableToken>, nuclei: seq<nat>)
    requires toks == SyllableTokens(rule, u, word) && ValidNuclei(toks, nuclei) && |nuclei| > 0
    ensures forall s :: s in Syllables(toks, PlaceBoundariesSpec(rule, u, toks, nuclei)) ==> |s| > 0
  {
    var bs := PlaceBoundariesSpec(rule, u, toks, nuclei);
    PlaceBoundariesSyllables(rule, u, toks, nuclei);
    PlaceBoundariesSorted(rule, u, toks, nuclei);
    SyllableTokensTile(rule, u, word);
    SurfacesNonEmpty(word, toks);
    var ss := Syllables(toks, bs);
    forall i | 0 <= i < |ss|
      ensures |ss[i]| > 0
    {
      var a, b := SyllableStart(bs, i), SyllableEnd(bs, i, |toks|);
      assert HasNucleusIn(nuclei, a, b);
      if i < |bs| {
        assert bs[i] in bs;
      }
      PieceNonEmpty(toks, a, b);
    }
  }

  /**
   * `r` writes the syllables `ss` of `word` with `hyphen` between
   * neighbours: there is at least one syllable, the syllables spell the
   * word, and `r` is the word plus one hyphen per boundary.
   */
  predicate JoinedSyllables(r: string, ss: seq<string>, word: string, hyphen: string)
  {
    && 1 <= |ss|
    && Concat(ss) == word
    && r == Join(ss, hyphen)
    && |r| == |word| + |Repeat(hyphen, |ss| - 1)|
  }

  lemma JoinedSyllablesOf(ss: seq<string>, word: string, hyphen: string)
    requires 1 <= |ss| && Concat(ss) == word
    ensures JoinedSyllables(Join(ss, hyphen), ss, word, hyphen)
  {
    JoinLength(ss, hyphen);
  }

  /** Units cut at ascending boundaries inside the word are written as their syllables joined by the hyphen. */
  lemma AssembleJoinsSyllables(toks: seq<SyllableToken>, bs: seq<nat>, word: string, hyphen: string)
    requires StrictlyIncreasing(bs) && (forall b :: b in bs ==> b <= |toks|)
    requires Concat(Surfaces(toks)) == word
    ensures JoinedSyllables(Assemble(toks, bs, hyphen), Syllables(toks, bs), word, hyphen)
  {
    AssembleIsJoin(toks, bs, hyphen);
    SyllablesSpell(toks, bs);
    JoinedSyllablesOf(Syllables(toks, bs), word, hyphen);
  }

  /**
   * Units that spell the word, cut at the boundaries of `placeBoundaries`,
   * give at least one and at most one syllable per nucleus, and `syllabify`
   * writes them with the soft hyphen between neighbours.
   */
  lemma UnitSyllablesJoin(rule: LanguageRule, u: Unicode, word: string, toks: seq<SyllableToken>, nuclei: seq<nat>, hyphen: string)
    requires ValidNuclei(toks, nuclei) && Concat(Surfaces(toks)) == word
    ensures JoinedSyllables(SyllabifyUnits(rule, u, word, toks, nuclei, hyphen), UnitSyllables(rule, u, word, toks, nuclei), word, hyphen)
    ensures |nuclei| > 0 ==> |UnitSyllables(rule, u, word, toks, nuclei)| <= |nuclei|
  {
    if |nuclei| == 0 || |PlaceBoundariesSpec(rule, u, toks, nuclei)| == 0 {
      assert Concat([word]) == Concat([]) + word;
      JoinedSyllablesOf([word], word, hyphen);
    } else {
      var bs := PlaceBoundariesSpec(rule, u, toks, nuclei);
      PlaceBoundariesSorted(rule, u, toks, nuclei);
      forall b | b in bs
        ensures b <= |toks|
      {
      }
      AssembleJoinsSyllables(toks, bs, word, hyphen);
    }
  }

  /**
   * `syllabifyWord` writes the syllables of the word with the soft hyphen
   * between neighbours: there is at least one syllable and at most one per
   * nucleus, and the syllables spell the word.
   */
  lemma SyllabifyWordJoinsSyllables(rule: LanguageRule, u: Unicode, word: string, hyphen: string)
    ensures JoinedSyllables(SyllabifyWordSpec(rule, u, word, hyphen), SyllablesOf(rule, u, word), word, hyphen)
    ensures |FindNucleiSpec(rule, u, SyllableTokens(rule, u, word))| > 0 ==>
      |SyllablesOf(rule, u, word)| <= |FindNucleiSpec(rule, u, SyllableTokens(rule, u, word))|
  {
    var toks := SyllableTokens(rule, u, word);
    FindNucleiValid(rule, u, toks);
    SyllableTokensTile(rule, u, word);
    UnitSyllablesJoin(rule, u, word, toks, FindNucleiSpec(rule, u, toks), hyphen);
  }

  /** A word of letters splits into nonempty syllables. */
  lemma SyllablesOfNonEmpty(rule: LanguageRule, u: Unicode, word: string)
    requires |word| > 0
    ensures forall s :: s in SyllablesOf(rule, u, word) ==> |s| > 0
  {
    var toks := SyllableTokens(rule, u, word);
    var nuclei := FindNucleiSpec(rule, u, toks);
    FindNucleiValid(rule, u, toks);
    if |nuclei| > 0 && |PlaceBoundariesSpec(rule, u, toks, nuclei)| > 0 {
      SyllablesNonEmpty(rule, u, word, toks, nuclei);
    }
  }

  /** Removing the soft hyphens gives the word back: with an empty hyphen nothing changes. */
  lemma EmptyHyphenKeepsWord(rule: LanguageRule, u: Unicode, word: string)
    ensures SyllabifyWordSpec(rule, u, word, "") == word
  {
    SyllabifyWordJoinsSyllables(rule, u, word, "");
    JoinEmptySeparator(SyllablesOf(rule, u, word));
  }

  /** A word without nuclei comes back unchanged. */
  lemma NoNucleusKeepsWord(rule: LanguageRule, u: Unicode, word: string, hyphen: string)
    requires FindNucleiSpec(rule, u, SyllableTokens(rule, u, word)) == []
    ensures SyllabifyWordSpec(rule, u, word, hyphen) == word
  {
  }

  /** `WordSyllabification`: the units and nuclei of one word, computed once. */
  class WordSyllabification {
    const word: string
    const rule: LanguageRule
    const u: Unicode
    const softHyphen: string
    const tokens: seq<SyllableToken>
    const nuclei: seq<nat>

    ghost predicate Valid()
    {
      && tokens == SyllableTokens(rule, u, word)
      && nuclei == FindNucleiSpec(rule, u, tokens)
      && ValidNuclei(tokens, nuclei)
    }

    constructor(word: string, rule: LanguageRule, u: Unicode, softHyphen: string)
      ensures Valid()
      ensures this.word == word && this.rule == rule && this.u == u && this.softHyphen == softHyphen
    {
      this.word := word;
      this.rule := rule;
      this.u := u;
      this.softHyphen := softHyphen;
      var tokenizer := new SyllableTokenizer(word, rule, u);
      var toks := tokenizer.Tokenize();
      this.tokens := toks;
      var found := FindNuclei(rule, u, toks);
      this.nuclei := found;
      FindNucleiValid(rule, u, toks);
    }

    method SkipSeparatorsForward(start: nat) returns (pos: nat)
      ensures pos == Boundaries.SkipSeparatorsForward(tokens, start)
    {
      pos := start;
      while pos < |tokens| && tokens[pos].tokenClass == TokenClass.Separator
        invariant start <= pos
        invariant Boundaries.SkipSeparatorsForward(tokens, pos) == Boundaries.SkipSeparatorsForward(tokens, start)
        decreases |tokens| - pos
      {
        pos := pos + 1;
      }
    }

    method SkipSeparatorsBackward(start: int) returns (pos: int)
      requires -1 <= start < |tokens|
      ensures pos == Boundaries.SkipSeparatorsBackward(tokens, start)
    {
      pos := start;
      while pos >= 0 && tokens[pos].tokenClass == TokenClass.Separator
        invariant -1 <= pos <= start
        invariant Boundaries.SkipSeparatorsBackward(tokens, pos) == Boundaries.SkipSeparatorsBackward(tokens, start)
        decreases pos + 1
      {
        pos := pos - 1;
      }
    }

    /** `extractConsonantCluster`: the CONSONANT units in `left..right` and their indices. */
    method ExtractConsonantCluster(left: nat, right: int) returns (cluster: seq<SyllableToken>, clusterIndices: seq<nat>)
      requires right >= -1
      ensures clusterIndices == ClusterIndices(tokens, left, right)
      ensures |cluster| == |clusterIndices|
      ensures forall k :: 0 <= k < |cluster| ==> clusterIndices[k] < |tokens| && cluster[k] == tokens[clusterIndices[k]]
    {
      cluster, clusterIndices := [], [];
      var i := left;
      while i <= right
        invariant left <= i && (i <= right + 1 || i == left)
        invariant clusterIndices == ClusterUpTo(tokens, left, i)
        invariant |cluster| == |clusterIndices|
        invariant forall k :: 0 <= k < |cluster| ==> clusterIndices[k] < |tokens| && cluster[k] == tokens[clusterIndices[k]]
      {
        if i < |tokens| && tokens[i].tokenClass == Consonant {
          cluster := cluster + [tokens[i]];
          clusterIndices := clusterIndices + [i];
        }
        i := i + 1;
      }
    }

    /** `findClusterBetweenNuclei`. */
    method FindClusterBetweenNuclei(nk: nat, nk1: nat) returns (cluster: seq<SyllableToken>, clusterIndices: seq<nat>)
      requires nk < nk1 < |tokens|
      ensures clusterIndices == ClusterBetween(tokens, nk, nk1)
      ensures |cluster| == |clusterIndices|
      ensures forall k :: 0 <= k < |cluster| ==> clusterIndices[k] < |tokens| && cluster[k] == tokens[clusterIndices[k]]
    {
      var left := SkipSeparatorsForward(nk + 1);
      var right := SkipSeparatorsBackward(nk1 - 1);
      cluster, clusterIndices := ExtractConsonantCluster(left, right);
    }

    /** `findBoundaryForSingleConsonant`, with its search through the breaking suffixes. */
    method FindBoundaryForSingleConsonant(clusterIndices: seq<nat>, nk: nat, nk1: nat) returns (boundary: Option<nat>)
      requires |clusterIndices| > 0 && nk <= nk1 < |tokens|
      ensures boundary == BoundaryForSingleConsonant(rule, u, tokens, clusterIndices, nk, nk1)
    {
      var consonantIdx := clusterIndices[0];
      if rule.finalSequencesKeep != {} {
        var sequence := LowerJoin(u, tokens, nk, nk1 + 1);
        if sequence in rule.finalSequencesKeep {
          var restWithVowel := LowerJoin(u, tokens, nk1, |tokens|);
          var restAfterVowel := if nk1 + 1 < |tokens| then LowerJoin(u, tokens, nk1 + 1, |tokens|) else "";
          if rule.suffixesBreakVre != {} {
            var remaining := rule.suffixesBreakVre;
            while remaining != {}
              invariant remaining <= rule.suffixesBreakVre
              invariant forall s :: s in rule.suffixesBreakVre && s !in remaining ==> !(restWithVowel == s || StartsWith(restWithVowel, s))
              decreases remaining
            {
              var suffix :| suffix in remaining;
              if restWithVowel == suffix || StartsWith(restWithVowel, suffix) {
                return Some(nk1);
              }
              remaining := remaining - {suffix};
            }
          }
          var isAtEnd := nk1 == |tokens| - 1;
          var hasLightSuffix := rule.suffixesKeepVre != {} && |restAfterVowel| > 0 && restAfterVowel in rule.suffixesKeepVre;
          if isAtEnd || hasLightSuffix {
            return None;
          }
        }
      }
      return Some(consonantIdx);
    }

    /** `findBoundaryInCluster`; `cluster` holds the units at `clusterIndices`. */
    method FindBoundaryInCluster(cluster: seq<SyllableToken>, clusterIndices: seq<nat>, nk: nat, nk1: nat) returns (boundary: Option<nat>)
      requires nk < nk1 < |tokens|
      requires |cluster| == |clusterIndices|
      requires forall k :: 0 <= k < |cluster| ==> clusterIndices[k] < |tokens| && cluster[k] == tokens[clusterIndices[k]]
      ensures boundary == BoundaryInCluster(rule, u, tokens, clusterIndices, nk, nk1)
    {
      var n := |cluster|;
      if n == 0 {
        if !rule.splitHiatus {
          return None;
        }
        var areAdjacent := if nk1 - nk == 1 then true else OnlySeparatorsBetween(tokens, nk, nk1);
        if areAdjacent {
          var vowelPair := Lower(u, tokens[nk].surface) + Lower(u, tokens[nk1].surface);
          if vowelPair in rule.digraphVowels {
            return None;
          }
          return Some(nk1);
        }
        return None;
      } else if n == 1 {
        boundary := FindBoundaryForSingleConsonant(clusterIndices, nk, nk1);
      } else if n == 2 {
        if IsValidOnset(rule, u, tokens, cluster[0].surface, cluster[1].surface, nk) {
          boundary := Some(clusterIndices[0]);
        } else {
          boundary := Some(clusterIndices[1]);
        }
      } else {
        var boundaryIdx := clusterIndices[n - 1];
        if IsValidOnset(rule, u, tokens, cluster[n - 2].surface, cluster[n - 1].surface, nk) {
          boundaryIdx := clusterIndices[n - 2];
        }
        boundary := Some(boundaryIdx);
      }
    }

    /** The body of the `placeBoundaries` loop for gap `k`. */
    method BoundaryOfGap(k: nat) returns (boundaryIdx: Option<nat>)
      requires ValidNuclei(tokens, nuclei) && k + 1 < |nuclei|
      ensures boundaryIdx == Gaps(rule, u, tokens, nuclei)[k]
    {
      var nk, nk1 := nuclei[k], nuclei[k + 1];
      var cluster, clusterIndices := FindClusterBetweenNuclei(nk, nk1);
      boundaryIdx := FindBoundaryInCluster(cluster, clusterIndices, nk, nk1);
    }

    /** `placeBoundaries`: one pass over the gaps between neighbouring nuclei. */
    method PlaceBoundaries() returns (boundaries: seq<nat>)
      requires ValidNuclei(tokens, nuclei)
      ensures boundaries == PlaceBoundariesSpec(rule, u, tokens, nuclei)
    {
      ghost var gaps := Gaps(rule, u, tokens, nuclei);
      boundaries := [];
      var k := 0;
      while k < |nuclei| - 1
        invariant k <= |gaps|
        invariant boundaries == Present(gaps[..k])
      {
        var boundaryIdx := BoundaryOfGap(k);
        PresentAppend(gaps, k);
        if boundaryIdx.Some? {
          boundaries := boundaries + [boundaryIdx.value];
        }
        k := k + 1;
      }
      assert gaps[..k] == gaps;
    }

    /** The inner loop of `syllabify`: append the units `from..until-1` that exist. */
    method AppendUnits(sb: string, from: nat, until: nat) returns (out: string)
      ensures out == sb + Piece(tokens, from, until)
    {
      out := sb;
      var i := from;
      while i < until
        invariant from <= i && (i <= until || i == from)
        invariant out == sb + Piece(tokens, from, i)
      {
        if i < |tokens| {
          out := out + tokens[i].surface;
        }
        i := i + 1;
      }
    }

    /** The boundary loop of `syllabify`: each syllable before a boundary, then the soft hyphen. */
    method WriteSyllables(boundaries: seq<nat>) returns (sb: string, lastBoundary: nat)
      ensures sb == Written(tokens, boundaries, |boundaries|, softHyphen)
      ensures lastBoundary == SyllableStart(boundaries, |boundaries|)
    {
      sb := "";
      lastBoundary := 0;
      for j := 0 to |boundaries|
        invariant lastBoundary == SyllableStart(boundaries, j)
        invariant sb == Written(tokens, boundaries, j, softHyphen)
      {
        var boundary := boundaries[j];
        sb := AppendUnits(sb, lastBoundary, boundary);
        sb := sb + softHyphen;
        lastBoundary := boundary;
      }
    }

    /** The `StringBuilder` part of `syllabify`: the syllables, then the units after the last boundary. */
    method WriteWithBoundaries(boundaries: seq<nat>) returns (result: string)
      ensures result == Assemble(tokens, boundaries, softHyphen)
    {
      var sb, lastBoundary := WriteSyllables(boundaries);
      ghost var written := sb;
      var i := lastBoundary;
      while i < |tokens|
        invariant lastBoundary <= i && (i <= |tokens| || i == lastBoundary)
        invariant sb == written + Piece(tokens, lastBoundary, i)
      {
        sb := sb + tokens[i].surface;
        i := i + 1;
      }
      return sb;
    }

    /** `syllabify`: the units with the soft hyphen written before every boundary unit. */
    method Syllabify() returns (result: string)
      requires ValidNuclei(tokens, nuclei)
      ensures result == SyllabifyUnits(rule, u, word, tokens, nuclei, softHyphen)
    {
      if |nuclei| == 0 {
        return word;
      }
      var boundaries := PlaceBoundaries();
      if |boundaries| == 0 {
        return word;
      }
      result := WriteWithBoundaries(boundaries);
      SyllabifyUnitsAssembles(rule, u, word, tokens, nuclei, softHyphen);
    }
  }

  /** `WordSyllabifier`: syllabifies single words with one language rule. */
  class WordSyllabifier {
    const rule: LanguageRule
    const u: Unicode

    constructor(rule: LanguageRule, u: Unicode)
      ensures this.rule == rule && this.u == u
    {
      this.rule := rule;
      this.u := u;
    }

    method SyllabifyWord(word: string, softHyphen: string) returns (r: string)
      ensures r == SyllabifyWordSpec(rule, u, word, softHyphen)
    {
      var syllabifier := new WordSyllabification(word, rule, u, softHyphen);
      r := syllabifier.Syllabify();
    }
  }
}
