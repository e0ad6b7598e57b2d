/**
 * Boundary placement of `WordSyllabification`: the consonant cluster between
 * two neighbouring nuclei and the rule that puts at most one syllable
 * boundary into each such gap.
 */
module Boundaries {
  import opened Text
  import opened Tokens
  import opened LanguageRules
  import opened Nuclei

  /** `skipSeparatorsForward`: the first index at or after `start` that is not a SEPARATOR. */
  function SkipSeparatorsForward(toks: seq<SyllableToken>, start: nat): (pos: nat)
    ensures start <= pos
    decreases |toks| - start
  {
    if start < |toks| && toks[start].tokenClass == TokenClass.Separator then SkipSeparatorsForward(toks, start + 1)
    else start
  }

  /** `skipSeparatorsBackward`: the last index at or before `start` that is not a SEPARATOR, or -1. */
  function SkipSeparatorsBackward(toks: seq<SyllableToken>, start: int): (pos: int)
    requires -1 <= start < |toks|
    ensures -1 <= pos <= start
    decreases start + 1
  {
    if start >= 0 && toks[start].tokenClass == TokenClass.Separator then SkipSeparatorsBackward(toks, start - 1)
    else start
  }

  lemma {:induction false} SkipForwardSkipsSeparators(toks: seq<SyllableToken>, start: nat)
    requires start <= |toks|
    ensures var pos := SkipSeparatorsForward(toks, start);
      && pos <= |toks|
      && (forall j :: start <= j < pos ==> toks[j].tokenClass == TokenClass.Separator)
      && (pos < |toks| ==> toks[pos].tokenClass != TokenClass.Separator)
    decreases |toks| - start
  {
    if start < |toks| && toks[start].tokenClass == TokenClass.Separator {
      SkipForwardSkipsSeparators(toks, start + 1);
    }
  }

  lemma {:induction false} SkipBackwardSkipsSeparators(toks: seq<SyllableToken>, start: int)
    requires -1 <= start < |toks|
    ensures var pos := SkipSeparatorsBackward(toks, start);
      (forall j :: pos < j <= start ==> toks[j].tokenClass == TokenClass.Separator) &&
      (pos >= 0 ==> toks[pos].tokenClass != TokenClass.Separator)
    decreases start + 1
  {
    if start >= 0 && toks[start].tokenClass == TokenClass.Separator {
      SkipBackwardSkipsSeparators(toks, start - 1);
    }
  }

  /** The indices in `left..n-1` of CONSONANT units, ascending. */
  function ClusterUpTo(toks: seq<SyllableToken>, left: nat, n: nat): seq<nat>
    decreases n
  {
    if n <= left then []
    else ClusterUpTo(toks, left, n - 1) + (if n - 1 < |toks| && toks[n - 1].tokenClass == Consonant then [n - 1] else [])
  }

  lemma {:induction false} ClusterUpToBounds(toks: seq<SyllableToken>, left: nat, n: nat)
    ensures forall k :: 0 <= k < |ClusterUpTo(toks, left, n)| ==> left <= ClusterUpTo(toks, left, n)[k] < n
    decreases n
  {
    if n > left {
      ClusterUpToBounds(toks, left, n - 1);
    }
  }

  lemma {:induction false} ClusterUpToIncreasing(toks: seq<SyllableToken>, left: nat, n: nat)
    ensures StrictlyIncreasing(ClusterUpTo(toks, left, n))
    decreases n
  {
    if n > left {
      ClusterUpToIncreasing(toks, left, n - 1);
      ClusterUpToBounds(toks, left, n - 1);
    }
  }

  lemma {:induction false} ClusterUpToMembers(toks: seq<SyllableToken>, left: nat, n: nat)
    ensures StrictlyIncreasing(ClusterUpTo(toks, left, n))
    ensures forall i: nat :: i in ClusterUpTo(toks, left, n) <==> left <= i < n && i < |toks| && toks[i].tokenClass == Consonant
    decreases n
  {
    ClusterUpToIncreasing(toks, left, n);
    if n > left {
      ClusterUpToMembers(toks, left, n - 1);
      var prev := ClusterUpTo(toks, left, n - 1);
      var tail := if n - 1 < |toks| && toks[n - 1].tokenClass == Consonant then [n - 1] else [];
      assert ClusterUpTo(toks, left, n) == prev + tail;
      forall i: nat
        ensures i in prev + tail <==> left <= i < n && i < |toks| && toks[i].tokenClass == Consonant
      {
        assert i in prev + tail <==> i in prev || i in tail;
      }
    }
  }

  /** `extractConsonantCluster`: the indices in `left..right` of CONSONANT units, ascending. */
  function ClusterIndices(toks: seq<SyllableToken>, left: nat, right: int): seq<nat>
    requires right >= -1
  {
    ClusterUpTo(toks, left, right + 1)
  }

  /** `findClusterBetweenNuclei`: the cluster between the separators that follow `nk` and precede `nk1`. */
  function ClusterBetween(toks: seq<SyllableToken>, nk: nat, nk1: nat): seq<nat>
    requires nk < nk1 < |toks|
  {
    ClusterIndices(toks, SkipSeparatorsForward(toks, nk + 1), SkipSeparatorsBackward(toks, nk1 - 1))
  }

  /**
   * Skipping separators on both sides loses nothing: the cluster is exactly
   * the CONSONANT units strictly between the two nuclei, ascending.
   */
  lemma ClusterBetweenExactly(toks: seq<SyllableToken>, nk: nat, nk1: nat)
    requires nk < nk1 < |toks|
    ensures StrictlyIncreasing(ClusterBetween(toks, nk, nk1))
    ensures forall i: nat :: i in ClusterBetween(toks, nk, nk1) <==>
      nk < i < nk1 && toks[i].tokenClass == Consonant
  {
    var left := SkipSeparatorsForward(toks, nk + 1);
    var right := SkipSeparatorsBackward(toks, nk1 - 1);
    SkipForwardSkipsSeparators(toks, nk + 1);
    SkipBackwardSkipsSeparators(toks, nk1 - 1);
    ClusterUpToMembers(toks, left, right + 1);
  }

  /** The lowered surfaces of the units. */
  function LowerSurfaces(u: Unicode, toks: seq<SyllableToken>): (r: seq<string>)
    ensures |r| == |toks|
  {
    seq(|toks|, i requires 0 <= i < |toks| => Lower(u, toks[i].surface))
  }

  /** `tokens.subList(a, b).joinToString("") { it.surface.lowercase() }`. */
  function LowerJoin(u: Unicode, toks: seq<SyllableToken>, a: nat, b: nat): string
    requires a <= b <= |toks|
  {
    Concat(LowerSurfaces(u, toks[a..b]))
  }

  /** `isLongNucleus`: the unit, or the unit with its successor, is a listed vowel sequence. */
  predicate IsLongNucleus(rule: LanguageRule, u: Unicode, toks: seq<SyllableToken>, nucleusIdx: nat)
  {
    && nucleusIdx < |toks|
    && (|| Lower(u, toks[nucleusIdx].surface) in rule.digraphVowels
        || (nucleusIdx + 1 < |toks| &&
            Lower(u, toks[nucleusIdx].surface) + Lower(u, toks[nucleusIdx + 1].surface) in rule.digraphVowels))
  }

  /**
   * `isValidOnset`: the lowered pair may open a syllable; a pair that needs
   * a long vowel before it only when the preceding nucleus is long.
   */
  function IsValidOnset(rule: LanguageRule, u: Unicode, toks: seq<SyllableToken>, consonant1: string, consonant2: string, prevNucleusIdx: nat): (valid: bool)
    ensures valid <==>
      && Lower(u, consonant1) + Lower(u, consonant2) in rule.clustersKeepNext
      && (Lower(u, consonant1) + Lower(u, consonant2) in rule.clustersOnlyAfterLong ==> IsLongNucleus(rule, u, toks, prevNucleusIdx))
  {
    var onsetCandidate := Lower(u, consonant1) + Lower(u, consonant2);
    if onsetCandidate in rule.clustersOnlyAfterLong && !IsLongNucleus(rule, u, toks, prevNucleusIdx) then false
    else onsetCandidate in rule.clustersKeepNext
  }

  /** Some breaking suffix begins `rest` (or equals it). */
  predicate BreakingSuffix(rule: LanguageRule, rest: string)
  {
    rule.suffixesBreakVre != {} && exists suffix :: suffix in rule.suffixesBreakVre && (rest == suffix || StartsWith(rest, suffix))
  }

  /** `findBoundaryForSingleConsonant`: V-CV, except for protected final sequences. */
  function BoundaryForSingleConsonant(rule: LanguageRule, u: Unicode, toks: seq<SyllableToken>, clusterIndices: seq<nat>, nk: nat, nk1: nat): Option<nat>
    requires |clusterIndices| > 0 && nk <= nk1 < |toks|
  {
    var consonantIdx := clusterIndices[0];
    if rule.finalSequencesKeep != {} && LowerJoin(u, toks, nk, nk1 + 1) in rule.finalSequencesKeep then
      var restWithVowel := LowerJoin(u, toks, nk1, |toks|);
      var restAfterVowel := if nk1 + 1 < |toks| then LowerJoin(u, toks, nk1 + 1, |toks|) else "";
      if BreakingSuffix(rule, restWithVowel) then Some(nk1)
      else if nk1 == |toks| - 1 || (rule.suffixesKeepVre != {} && |restAfterVowel| > 0 && restAfterVowel in rule.suffixesKeepVre) then None
      else Some(consonantIdx)
    else Some(consonantIdx)
  }

  /** Every unit strictly between the nuclei is a SEPARATOR. */
  predicate OnlySeparatorsBetween(toks: seq<SyllableToken>, nk: nat, nk1: nat)
    requires nk1 <= |toks|
  {
    forall j :: nk + 1 <= j < nk1 ==> toks[j].tokenClass == TokenClass.Separator
  }

  /**
   * `findBoundaryInCluster`: the boundary for a cluster of each size. Unit
   * `clusterIndices[k]` is the source's `cluster[k]`.
   */
  function BoundaryInCluster(rule: LanguageRule, u: Unicode, toks: seq<SyllableToken>, clusterIndices: seq<nat>, nk: nat, nk1: nat): Option<nat>
    requires nk < nk1 < |toks|
    requires forall k :: 0 <= k < |clusterIndices| ==> clusterIndices[k] < |toks|
  {
    var n := |clusterIndices|;
    if n == 0 then
      if !rule.splitHiatus then None
      else
        var areAdjacent := if nk1 - nk == 1 then true else OnlySeparatorsBetween(toks, nk, nk1);
        if areAdjacent then
          var vowelPair := Lower(u, toks[nk].surface) + Lower(u, toks[nk1].surface);
          if vowelPair in rule.digraphVowels then None else Some(nk1)
        else None
    else if n == 1 then BoundaryForSingleConsonant(rule, u, toks, clusterIndices, nk, nk1)
    else if n == 2 then
      if IsValidOnset(rule, u, toks, toks[clusterIndices[0]].surface, toks[clusterIndices[1]].surface, nk) then Some(clusterIndices[0])
      else Some(clusterIndices[1])
    else
      var boundaryIdx := clusterIndices[n - 1];
      if IsValidOnset(rule, u, toks, toks[clusterIndices[n - 2]].surface, toks[clusterIndices[n - 1]].surface, nk) then Some(clusterIndices[n - 2])
      else Some(boundaryIdx)
  }

  /** The boundary of the gap between nucleus `k` and nucleus `k + 1`. */
  function GapBoundary(rule: LanguageRule, u: Unicode, toks: seq<SyllableToken>, nuclei: seq<nat>, k: nat): Option<nat>
    requires ValidNuclei(toks, nuclei) && k + 1 < |nuclei|
  {
    var nk, nk1 := nuclei[k], nuclei[k + 1];
    var cluster := ClusterBetween(toks, nk, nk1);
    ClusterBetweenExactly(toks, nk, nk1);
    assert forall k :: 0 <= k < |cluster| ==> cluster[k] in cluster;
    BoundaryInCluster(rule, u, toks, cluster, nk, nk1)
  }

  /** The boundary of every gap between neighbouring nuclei, in order; `None` where a gap is not split. */
  function Gaps(rule: LanguageRule, u: Unicode, toks: seq<SyllableToken>, nuclei: seq<nat>): (gaps: seq<Option<nat>>)
    requires ValidNuclei(toks, nuclei)
    ensures |nuclei| > 0 ==> |gaps| == |nuclei| - 1
    ensures |nuclei| == 0 ==> gaps == []
  {
    if |nuclei| == 0 then []
    else seq(|nuclei| - 1, k requires 0 <= k < |nuclei| - 1 => GapBoundary(rule, u, toks, nuclei, k))
  }

  /** The boundaries that are present, in order. */
  function Present(gaps: seq<Option<nat>>): (bs: seq<nat>)
    ensures |bs| <= |gaps|
  {
    if |gaps| == 0 then []
    else
      Present(gaps[..|gaps| - 1]) +
      match gaps[|gaps| - 1]
      case Some(b) => [b]
      case None => []
  }

  lemma PresentAppend(gaps: seq<Option<nat>>, k: nat)
    requires k < |gaps|
    ensures Present(gaps[..k + 1]) == Present(gaps[..k]) + (if gaps[k].Some? then [gaps[k].value] else [])
  {
    assert gaps[..k + 1][..k] == gaps[..k];
  }

  /** `placeBoundaries`: the boundaries of all gaps. */
  function PlaceBoundariesSpec(rule: LanguageRule, u: Unicode, toks: seq<SyllableToken>, nuclei: seq<nat>): seq<nat>
    requires ValidNuclei(toks, nuclei)
  {
    Present(Gaps(rule, u, toks, nuclei))
  }

  /** A gap's boundary, if any, lies after its first nucleus and at or before its second. */
  lemma GapBoundaryRange(rule: LanguageRule, u: Unicode, toks: seq<SyllableToken>, nuclei: seq<nat>, k: nat)
    requires ValidNuclei(toks, nuclei) && k + 1 < |nuclei|
    ensures match GapBoundary(rule, u, toks, nuclei, k)
      case Some(b) => nuclei[k] < b <= nuclei[k + 1]
      case None => true
  {
    var nk, nk1 := nuclei[k], nuclei[k + 1];
    ClusterBetweenExactly(toks, nk, nk1);
    var c := ClusterBetween(toks, nk, nk1);
    if |c| > 0 {
      assert c[0] in c && c[|c| - 1] in c;
    }
    if |c| > 1 {
      assert c[|c| - 2] in c;
    }
  }

  /** Gap `k` is `None` or a unit index in `nuclei[k] + 1 .. nuclei[k + 1]`. */
  predicate GapsWithin(gaps: seq<Option<nat>>, nuclei: seq<nat>)
  {
    && |gaps| < |nuclei|
    && forall k {:trigger gaps[k]} :: 0 <= k < |gaps| && gaps[k].Some? ==> nuclei[k] < gaps[k].value <= nuclei[k + 1]
  }

  lemma GapsAreWithin(rule: LanguageRule, u: Unicode, toks: seq<SyllableToken>, nuclei: seq<nat>)
    requires ValidNuclei(toks, nuclei) && |nuclei| > 0
    ensures GapsWithin(Gaps(rule, u, toks, nuclei), nuclei)
  {
    var gaps := Gaps(rule, u, toks, nuclei);
    forall k | 0 <= k < |gaps| && gaps[k].Some?
      ensures nuclei[k] < gaps[k].value <= nuclei[k + 1]
    {
      GapBoundaryRange(rule, u, toks, nuclei, k);
    }
  }

  /**
   * The boundaries of the first `m` gaps are ascending and lie after the
   * first nucleus and at or before nucleus `m`.
   */
  lemma {:induction false} PresentSorted(gaps: seq<Option<nat>>, nuclei: seq<nat>, m: nat)
    requires StrictlyIncreasing(nuclei) && GapsWithin(gaps, nuclei) && m <= |gaps|
    ensures StrictlyIncreasing(Present(gaps[..m]))
    ensures forall b :: b in Present(gaps[..m]) ==> nuclei[0] < b <= nuclei[m]
  {
    if m > 0 {
      PresentSorted(gaps, nuclei, m - 1);
      var prev := Present(gaps[..m - 1]);
      assert gaps[..m][..m - 1] == gaps[..m - 1];
      assert 0 <= m - 1 < m && nuclei[m - 1] < nuclei[m];
      if gaps[m - 1].Some? {
        var b := gaps[m - 1].value;
        var bs := prev + [b];
        assert Present(gaps[..m]) == bs;
        assert forall x :: x in bs ==> x in prev || x == b;
        forall i, j | 0 <= i < j < |bs|
          ensures bs[i] < bs[j]
        {
          if j == |bs| - 1 {
            assert bs[i] in prev;
          }
        }
      } else {
        assert Present(gaps[..m]) == prev;
      }
    }
  }

  /**
   * `placeBoundaries` yields strictly increasing unit indices, each in
   * `1..tokens.size - 1`, at most one per gap between nuclei.
   */
  lemma PlaceBoundariesSorted(rule: LanguageRule, u: Unicode, toks: seq<SyllableToken>, nuclei: seq<nat>)
    requires ValidNuclei(toks, nuclei)
    ensures var bs := PlaceBoundariesSpec(rule, u, toks, nuclei);
      && StrictlyIncreasing(bs)
      && (forall b :: b in bs ==> 1 <= b < |toks|)
      && (|nuclei| > 0 ==> |bs| <= |nuclei| - 1)
  {
    if |nuclei| > 0 {
      var gaps := Gaps(rule, u, toks, nuclei);
      GapsAreWithin(rule, u, toks, nuclei);
      PresentSorted(gaps, nuclei, |gaps|);
      assert gaps[..|gaps|] == gaps;
    }
  }

  /** Syllable `i` of a word of `n` units cut before each unit index in `bs` starts here... */
  function SyllableStart(bs: seq<nat>, i: nat): nat
    requires i <= |bs|
  {
    if i == 0 then 0 else bs[i - 1]
  }

  /** ...and ends before this unit index. */
  function SyllableEnd(bs: seq<nat>, i: nat, n: nat): nat
    requires i <= |bs|
  {
    if i == |bs| then n else bs[i]
  }

  /** Some nucleus lies in `a..b-1`. */
  predicate HasNucleusIn(nuclei: seq<nat>, a: nat, b: nat)
  {
    exists k :: 0 <= k < |nuclei| && a <= nuclei[k] < b
  }

  lemma NucleusWitness(nuclei: seq<nat>, k: nat, a: nat, b: nat)
    requires k < |nuclei| && a <= nuclei[k] < b
    ensures HasNucleusIn(nuclei, a, b)
  {
  }

  lemma {:induction false} PresentNuclei(gaps: seq<Option<nat>>, nuclei: seq<nat>, m: nat)
    requires StrictlyIncreasing(nuclei) && GapsWithin(gaps, nuclei) && m <= |gaps|
    ensures var bs := Present(gaps[..m]);
      && (forall i {:trigger SyllableStart(bs, i)} :: 0 <= i < |bs| ==> HasNucleusIn(nuclei, SyllableStart(bs, i), bs[i]))
      && SyllableStart(bs, |bs|) <= nuclei[m]
  {
    if m > 0 {
      PresentNuclei(gaps, nuclei, m - 1);
      var prev := Present(gaps[..m - 1]);
      assert gaps[..m][..m - 1] == gaps[..m - 1];
      assert 0 <= m - 1 < m && nuclei[m - 1] < nuclei[m];
      if gaps[m - 1].Some? {
        var b := gaps[m - 1].value;
        var bs := prev + [b];
        assert Present(gaps[..m]) == bs;
        forall i | 0 <= i < |bs|
          ensures HasNucleusIn(nuclei, SyllableStart(bs, i), bs[i])
        {
          if i < |prev| {
            assert SyllableStart(bs, i) == SyllableStart(prev, i) && bs[i] == prev[i];
          } else {
            assert SyllableStart(bs, i) == SyllableStart(prev, |prev|);
            NucleusWitness(nuclei, m - 1, SyllableStart(bs, i), bs[i]);
          }
        }
      } else {
        assert Present(gaps[..m]) == prev;
      }
    }
  }

  /**
   * Cutting the word before the units that `placeBoundaries` returns leaves
   * at least one nucleus in every syllable.
   */
  lemma PlaceBoundariesSyllables(rule: LanguageRule, u: Unicode, toks: seq<SyllableToken>, nuclei: seq<nat>)
    requires ValidNuclei(toks, nuclei) && |nuclei| > 0
    ensures var bs := PlaceBoundariesSpec(rule, u, toks, nuclei);
      forall i {:trigger SyllableStart(bs, i)} :: 0 <= i <= |bs| ==> HasNucleusIn(nuclei, SyllableStart(bs, i), SyllableEnd(bs, i, |toks|))
  {
    var gaps := Gaps(rule, u, toks, nuclei);
    GapsAreWithin(rule, u, toks, nuclei);
    PresentNuclei(gaps, nuclei, |gaps|);
    assert gaps[..|gaps|] == gaps;
    var bs := PlaceBoundariesSpec(rule, u, toks, nuclei);
    assert SyllableStart(bs, |bs|) <= nuclei[|nuclei| - 1] < |toks|;
  }

  /**
   * A gap without consonants is split at its second nucleus exactly when
   * hiatus splitting is on, only separators lie between the nuclei, and the
   * two nuclei do not form a listed vowel sequence; otherwise it is not
   * split.
   */
  lemma HiatusGap(rule: LanguageRule, u: Unicode, toks: seq<SyllableToken>, nuclei: seq<nat>, k: nat)
    requires ValidNuclei(toks, nuclei) && k + 1 < |nuclei|
    requires forall i :: nuclei[k] < i < nuclei[k + 1] ==> toks[i].tokenClass != Consonant
    ensures var nk, nk1 := nuclei[k], nuclei[k + 1];
      GapBoundary(rule, u, toks, nuclei, k) ==
        if rule.splitHiatus && OnlySeparatorsBetween(toks, nk, nk1) &&
           Lower(u, toks[nk].surface) + Lower(u, toks[nk1].surface) !in rule.digraphVowels
        then Some(nk1) else None
  {
    var nk, nk1 := nuclei[k], nuclei[k + 1];
    ClusterBetweenExactly(toks, nk, nk1);
  }

  lemma SingletonOfIncreasing(s: seq<nat>, x: nat)
    requires StrictlyIncreasing(s) && x in s
    requires forall y :: y in s ==> y == x
    ensures s == [x]
  {
    assert s[0] in s && s[|s| - 1] in s;
  }

  /**
   * A gap with exactly one consonant is split before it, unless the lowered
   * text from the first nucleus through the second is a protected final
   * sequence: then it is split after the consonant when the rest of the
   * word from the second nucleus starts with a breaking suffix, and not at
   * all when the second nucleus ends the word or is followed by a light
   * suffix.
   */
  lemma SingleConsonantGap(rule: LanguageRule, u: Unicode, toks: seq<SyllableToken>, nuclei: seq<nat>, k: nat, c: nat)
    requires ValidNuclei(toks, nuclei) && k + 1 < |nuclei|
    requires nuclei[k] < c < nuclei[k + 1] && toks[c].tokenClass == Consonant
    requires forall i :: nuclei[k] < i < nuclei[k + 1] && i != c ==> toks[i].tokenClass != Consonant
    ensures var nk, nk1 := nuclei[k], nuclei[k + 1];
      var rest := LowerJoin(u, toks, nk1 + 1, |toks|);
      GapBoundary(rule, u, toks, nuclei, k) ==
        if !(rule.finalSequencesKeep != {} && LowerJoin(u, toks, nk, nk1 + 1) in rule.finalSequencesKeep) then Some(c)
        else if BreakingSuffix(rule, LowerJoin(u, toks, nk1, |toks|)) then Some(nk1)
        else if nk1 == |toks| - 1 || (rule.suffixesKeepVre != {} && |rest| > 0 && rest in rule.suffixesKeepVre) then None
        else Some(c)
  {
    SingleConsonantCluster(rule, u, toks, nuclei, k, c);
    SingleConsonantRest(rule, u, toks, [c], nuclei[k], nuclei[k + 1]);
  }

  /** A gap with exactly one consonant has that consonant as its whole cluster. */
  lemma SingleConsonantCluster(rule: LanguageRule, u: Unicode, toks: seq<SyllableToken>, nuclei: seq<nat>, k: nat, c: nat)
    requires ValidNuclei(toks, nuclei) && k + 1 < |nuclei|
    requires nuclei[k] < c < nuclei[k + 1] && toks[c].tokenClass == Consonant
    requires forall i :: nuclei[k] < i < nuclei[k + 1] && i != c ==> toks[i].tokenClass != Consonant
    ensures GapBoundary(rule, u, toks, nuclei, k) == BoundaryForSingleConsonant(rule, u, toks, [c], nuclei[k], nuclei[k + 1])
  {
    var nk, nk1 := nuclei[k], nuclei[k + 1];
    ClusterBetweenExactly(toks, nk, nk1);
    var cl := ClusterBetween(toks, nk, nk1);
    SingletonOfIncreasing(cl, c);
  }

  /** The tail after the second nucleus is empty when that nucleus ends the word. */
  lemma SingleConsonantRest(rule: LanguageRule, u: Unicode, toks: seq<SyllableToken>, cl: seq<nat>, nk: nat, nk1: nat)
    requires |cl| > 0 && nk <= nk1 < |toks|
    ensures var rest := LowerJoin(u, toks, nk1 + 1, |toks|);
      BoundaryForSingleConsonant(rule, u, toks, cl, nk, nk1) ==
        if !(rule.finalSequencesKeep != {} && LowerJoin(u, toks, nk, nk1 + 1) in rule.finalSequencesKeep) then Some(cl[0])
        else if BreakingSuffix(rule, LowerJoin(u, toks, nk1, |toks|)) then Some(nk1)
        else if nk1 == |toks| - 1 || (rule.suffixesKeepVre != {} && |rest| > 0 && rest in rule.suffixesKeepVre) then None
        else Some(cl[0])
  {
    if nk1 + 1 == |toks| {
      assert LowerSurfaces(u, toks[nk1 + 1..|toks|]) == [];
    }
  }

  /**
   * A gap with two or more consonants looks only at its last two: the
   * boundary goes before them when they form a valid onset after the first
   * nucleus, and between them otherwise.
   */
  lemma ClusterGap(rule: LanguageRule, u: Unicode, toks: seq<SyllableToken>, nuclei: seq<nat>, k: nat)
    requires ValidNuclei(toks, nuclei) && k + 1 < |nuclei|
    requires |ClusterBetween(toks, nuclei[k], nuclei[k + 1])| >= 2
    ensures var nk := nuclei[k];
      var cl := ClusterBetween(toks, nk, nuclei[k + 1]);
      var c1, c2 := cl[|cl| - 2], cl[|cl| - 1];
      && nk < c1 < c2 < nuclei[k + 1]
      && toks[c1].tokenClass == Consonant && toks[c2].tokenClass == Consonant
      && (forall i :: c1 < i < c2 ==> toks[i].tokenClass != Consonant)
      && (forall i :: c2 < i < nuclei[k + 1] ==> toks[i].tokenClass != Consonant)
      && GapBoundary(rule, u, toks, nuclei, k) ==
           if IsValidOnset(rule, u, toks, toks[c1].surface, toks[c2].surface, nk) then Some(c1) else Some(c2)
  {
    var nk, nk1 := nuclei[k], nuclei[k + 1];
    ClusterBetweenExactly(toks, nk, nk1);
    var cl := ClusterBetween(toks, nk, nk1);
    var n := |cl|;
    var c1, c2 := cl[n - 2], cl[n - 1];
    assert c1 in cl && c2 in cl;
    forall m | 0 <= m < n - 2
      ensures cl[m] < c1
    {
    }
  }
}
