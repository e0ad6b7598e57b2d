/**
 * `WordSyllabification.findNuclei`: which units of a word carry a syllable.
 * Vowels do, except a final semivowel after a consonant; a syllabic
 * consonant does when it sits between consonants; and a word with no
 * nucleus left falls back to its syllabic consonants.
 */
module Nuclei {
  import opened Text
  import opened Tokens
  import opened LanguageRules

  /** `surface.lowercase().firstOrNull() in chars`. */
  predicate FirstLowerIn(u: Unicode, surface: string, chars: set<char>)
  {
    |surface| > 0 && Lower(u, surface)[0] in chars
  }

  function IsVowelAt(toks: seq<SyllableToken>): nat -> bool
  {
    (i: nat) => i < |toks| && toks[i].tokenClass == Vowel
  }

  /** The first pass: the indices of the VOWEL units, in order. */
  function VowelNuclei(toks: seq<SyllableToken>): seq<nat>
  {
    Indices(|toks|, IsVowelAt(toks))
  }

  /** Every unit from `from` on is a SEPARATOR or OTHER. */
  predicate OnlyTrailing(toks: seq<SyllableToken>, from: nat)
  {
    forall j :: from <= j < |toks| ==> toks[j].tokenClass == TokenClass.Separator || toks[j].tokenClass == Other
  }

  /**
   * The unit at `i` is a final semivowel: the rule has semivowels, only
   * separators and other units follow it, its first character is a
   * semivowel, and a CONSONANT precedes it.
   */
  predicate FinalSemivowel(rule: LanguageRule, u: Unicode, toks: seq<SyllableToken>, i: nat)
    requires i < |toks|
  {
    && rule.finalSemivowels != {}
    && OnlyTrailing(toks, i + 1)
    && FirstLowerIn(u, toks[i].surface, rule.finalSemivowels)
    && i > 0 && toks[i - 1].tokenClass == Consonant
  }

  /** The vowel nuclei after the final-semivowel check. */
  function AfterSemivowel(rule: LanguageRule, u: Unicode, toks: seq<SyllableToken>): seq<nat>
  {
    var v := VowelNuclei(toks);
    if |v| > 0 && FinalSemivowel(rule, u, toks, v[|v| - 1]) then v[..|v| - 1] else v
  }

  /** The nearest VOWEL unit below index `j`. */
  function VowelBefore(toks: seq<SyllableToken>, j: nat): (r: Option<nat>)
    requires j <= |toks|
    ensures r.Some? ==> r.value < j
  {
    if j == 0 then None
    else if toks[j - 1].tokenClass == Vowel then Some(j - 1)
    else VowelBefore(toks, j - 1)
  }

  /** The nearest VOWEL unit at index `j` or above. */
  function VowelFrom(toks: seq<SyllableToken>, j: nat): (r: Option<nat>)
    ensures r.Some? ==> j <= r.value < |toks|
    decreases |toks| - j
  {
    if j >= |toks| then None
    else if toks[j].tokenClass == Vowel then Some(j)
    else VowelFrom(toks, j + 1)
  }

  /** `distToPrevVowel`: the distance to the nearest vowel before `i`, or `i + 1` to the word start. */
  function DistToPrevVowel(toks: seq<SyllableToken>, i: nat): nat
    requires i < |toks|
  {
    match VowelBefore(toks, i)
    case Some(j) => i - j
    case None => i + 1
  }

  /** `distToNextVowel`: the distance to the nearest vowel after `i`, or `size - i` to the word end. */
  function DistToNextVowel(toks: seq<SyllableToken>, i: nat): nat
    requires i < |toks|
  {
    match VowelFrom(toks, i + 1)
    case Some(j) => j - i
    case None => |toks| - i
  }

  /**
   * The tests of the syllabic-consonant pass: a CONSONANT whose first
   * character is syllabic, with a consonant or the word edge on each side
   * and more than one position to the nearest vowel (or edge) on each side.
   */
  predicate SyllabicCandidate(rule: LanguageRule, u: Unicode, toks: seq<SyllableToken>, i: nat)
    requires i < |toks|
  {
    && toks[i].tokenClass == Consonant
    && FirstLowerIn(u, toks[i].surface, rule.syllabicConsonants)
    && (i == 0 || toks[i - 1].tokenClass == Consonant)
    && (i == |toks| - 1 || toks[i + 1].tokenClass == Consonant)
    && DistToPrevVowel(toks, i) > 1
    && DistToNextVowel(toks, i) > 1
  }

  function IsSyllabicAt(rule: LanguageRule, u: Unicode, toks: seq<SyllableToken>): nat -> bool
  {
    (i: nat) => i < |toks| && SyllabicCandidate(rule, u, toks, i)
  }

  function SyllabicNuclei(rule: LanguageRule, u: Unicode, toks: seq<SyllableToken>): seq<nat>
  {
    Indices(|toks|, IsSyllabicAt(rule, u, toks))
  }

  /** The fallback test: a CONSONANT whose first character is syllabic. */
  function IsFallbackAt(rule: LanguageRule, u: Unicode, toks: seq<SyllableToken>): nat -> bool
  {
    (i: nat) => i < |toks| && toks[i].tokenClass == Consonant && FirstLowerIn(u, toks[i].surface, rule.syllabicConsonants)
  }

  function FallbackNuclei(rule: LanguageRule, u: Unicode, toks: seq<SyllableToken>): seq<nat>
  {
    Indices(|toks|, IsFallbackAt(rule, u, toks))
  }

  /** Inserts `x` before the first element not below it. */
  function InsertAscending(s: seq<nat>, x: nat): (r: seq<nat>)
    ensures |r| == |s| + 1
  {
    if |s| == 0 then [x]
    else if x <= s[0] then [x] + s
    else [s[0]] + InsertAscending(s[1..], x)
  }

  /** `MutableList<Int>.sort()`, as an insertion sort. */
  function SortAscending(s: seq<nat>): (r: seq<nat>)
    ensures |r| == |s|
  {
    if |s| == 0 then [] else InsertAscending(SortAscending(s[..|s| - 1]), s[|s| - 1])
  }

  lemma {:induction false} InsertAscendingCorrect(s: seq<nat>, x: nat)
    requires StrictlyIncreasing(s) && x !in s
    ensures StrictlyIncreasing(InsertAscending(s, x))
    ensures forall y :: y in InsertAscending(s, x) <==> y in s || y == x
  {
    if |s| > 0 && x > s[0] {
      var tail := s[1..];
      assert StrictlyIncreasing(tail);
      InsertAscendingCorrect(tail, x);
      assert s == [s[0]] + tail;
      var r := InsertAscending(s, x);
      assert r == [s[0]] + InsertAscending(tail, x);
      forall i, j | 0 <= i < j < |r|
        ensures r[i] < r[j]
      {
        if i == 0 {
          assert r[j] in InsertAscending(tail, x);
          if r[j] != x {
            var k :| 0 <= k < |tail| && tail[k] == r[j];
            assert s[k + 1] == r[j];
          }
        }
      }
    }
  }

  /** Sorting a list without repetitions gives the ascending list of its elements. */
  lemma {:induction false} SortAscendingCorrect(s: seq<nat>)
    requires forall i, j :: 0 <= i < j < |s| ==> s[i] != s[j]
    ensures StrictlyIncreasing(SortAscending(s))
    ensures forall y :: y in SortAscending(s) <==> y in s
  {
    if |s| > 0 {
      var front := s[..|s| - 1];
      SortAscendingCorrect(front);
      assert s == front + [s[|s| - 1]];
      assert s[|s| - 1] !in front;
      InsertAscendingCorrect(SortAscending(front), s[|s| - 1]);
    }
  }

  /** The vowel nuclei together with the promoted syllabic consonants, sorted. */
  function WithSyllabic(rule: LanguageRule, u: Unicode, toks: seq<SyllableToken>): seq<nat>
  {
    var n1 := AfterSemivowel(rule, u, toks);
    if rule.syllabicConsonants != {} && |n1| > 0 then
      var s := SyllabicNuclei(rule, u, toks);
      if |s| > 0 then SortAscending(n1 + s) else n1
    else n1
  }

  /** The result of `findNuclei`. */
  function FindNucleiSpec(rule: LanguageRule, u: Unicode, toks: seq<SyllableToken>): seq<nat>
  {
    var n2 := WithSyllabic(rule, u, toks);
    if |n2| > 0 then n2 else FallbackNuclei(rule, u, toks)
  }

  /** Nuclei are ascending unit indices. */
  predicate ValidNuclei(toks: seq<SyllableToken>, nuclei: seq<nat>)
  {
    StrictlyIncreasing(nuclei) && forall k :: 0 <= k < |nuclei| ==> nuclei[k] < |toks|
  }

  lemma PrefixIncreasing(s: seq<nat>, n: nat)
    requires StrictlyIncreasing(s) && n <= |s|
    ensures StrictlyIncreasing(s[..n])
  {
  }

  /**
   * Only the last vowel can be dropped, and exactly when it is a final
   * semivowel: the nuclei after the check are the vowels that are not final
   * semivowels.
   */
  lemma AfterSemivowelMembers(rule: LanguageRule, u: Unicode, toks: seq<SyllableToken>)
    ensures ValidNuclei(toks, AfterSemivowel(rule, u, toks))
    ensures forall i: nat :: i in AfterSemivowel(rule, u, toks) <==>
      i < |toks| && toks[i].tokenClass == Vowel && !FinalSemivowel(rule, u, toks, i)
  {
    var v := VowelNuclei(toks);
    var n1 := AfterSemivowel(rule, u, toks);
    assert forall i: nat :: i in v <==> i < |toks| && toks[i].tokenClass == Vowel;
    forall i: nat | i < |toks| && toks[i].tokenClass == Vowel && (|v| == 0 || i != v[|v| - 1])
      ensures !FinalSemivowel(rule, u, toks, i)
    {
      assert i in v;
      AscendingLastIsMax(v, i);
      assert !OnlyTrailing(toks, i + 1) by {
        assert v[|v| - 1] in v;
      }
    }
    if |v| > 0 && FinalSemivowel(rule, u, toks, v[|v| - 1]) {
      PrefixIncreasing(v, |v| - 1);
      forall i: nat
        ensures i in n1 <==> i < |toks| && toks[i].tokenClass == Vowel && !FinalSemivowel(rule, u, toks, i)
      {
        if i in n1 {
          var k :| 0 <= k < |n1| && n1[k] == i;
          assert v[k] == i && i < v[|v| - 1];
        }
        if i < |toks| && toks[i].tokenClass == Vowel && i != v[|v| - 1] {
          assert i in v;
          AscendingLastIsMax(v, i);
        }
      }
    }
  }

  /** VowelBefore finds nothing below `j` exactly when there is no vowel there. */
  lemma {:induction false} VowelBeforeSpec(toks: seq<SyllableToken>, j: nat)
    requires j <= |toks|
    ensures VowelBefore(toks, j).None? <==> forall k :: 0 <= k < j ==> toks[k].tokenClass != Vowel
  {
    if j > 0 && toks[j - 1].tokenClass != Vowel {
      VowelBeforeSpec(toks, j - 1);
    }
  }

  /**
   * The distance tests only exclude the word edges: a syllabic CONSONANT is
   * promoted exactly when it is not the first or last unit and both of its
   * neighbours are CONSONANTs.
   */
  lemma SyllabicCandidateIff(rule: LanguageRule, u: Unicode, toks: seq<SyllableToken>, i: nat)
    requires i < |toks|
    ensures SyllabicCandidate(rule, u, toks, i) <==>
      && toks[i].tokenClass == Consonant
      && FirstLowerIn(u, toks[i].surface, rule.syllabicConsonants)
      && 0 < i < |toks| - 1
      && toks[i - 1].tokenClass == Consonant
      && toks[i + 1].tokenClass == Consonant
  {
    if 0 < i && toks[i - 1].tokenClass == Consonant {
      assert VowelBefore(toks, i) == VowelBefore(toks, i - 1);
    }
    if i < |toks| - 1 && toks[i + 1].tokenClass == Consonant {
      assert VowelFrom(toks, i + 1) == VowelFrom(toks, i + 2);
    }
  }

  /** The merged, sorted nuclei are the vowel nuclei plus the promoted consonants. */
  lemma WithSyllabicMembers(rule: LanguageRule, u: Unicode, toks: seq<SyllableToken>)
    ensures ValidNuclei(toks, WithSyllabic(rule, u, toks))
    ensures var n1 := AfterSemivowel(rule, u, toks);
      forall i: nat :: i in WithSyllabic(rule, u, toks) <==>
        i in n1 || (|n1| > 0 && i < |toks| && SyllabicCandidate(rule, u, toks, i))
  {
    var n1 := AfterSemivowel(rule, u, toks);
    AfterSemivowelMembers(rule, u, toks);
    var s := SyllabicNuclei(rule, u, toks);
    assert forall i: nat :: i in s <==> i < |toks| && SyllabicCandidate(rule, u, toks, i);
    if rule.syllabicConsonants == {} {
      forall i: nat | i < |toks|
        ensures !SyllabicCandidate(rule, u, toks, i)
      {
      }
    }
    if rule.syllabicConsonants != {} && |n1| > 0 && |s| > 0 {
      var both := n1 + s;
      forall a, b | 0 <= a < b < |both|
        ensures both[a] != both[b]
      {
        if b < |n1| || a >= |n1| {
        } else {
          assert both[a] in n1 && both[b] in s;
        }
      }
      SortAscendingCorrect(both);
      var r := SortAscending(both);
      forall k | 0 <= k < |r|
        ensures r[k] < |toks|
      {
        assert r[k] in both;
      }
    }
  }

  /**
   * The nuclei are ascending unit indices. While a vowel nucleus survives
   * the semivowel check, they are those vowels plus the promoted syllabic
   * consonants; otherwise they are exactly the CONSONANTs whose first
   * character is syllabic.
   */
  lemma FindNucleiMembers(rule: LanguageRule, u: Unicode, toks: seq<SyllableToken>)
    ensures ValidNuclei(toks, FindNucleiSpec(rule, u, toks))
    ensures var n1 := AfterSemivowel(rule, u, toks);
      forall i: nat :: i in FindNucleiSpec(rule, u, toks) <==>
        if |n1| > 0 then i in n1 || (i < |toks| && SyllabicCandidate(rule, u, toks, i))
        else i < |toks| && toks[i].tokenClass == Consonant && FirstLowerIn(u, toks[i].surface, rule.syllabicConsonants)
  {
    var n1 := AfterSemivowel(rule, u, toks);
    WithSyllabicMembers(rule, u, toks);
    var n2 := WithSyllabic(rule, u, toks);
    if |n1| > 0 {
      assert n1[0] in n2;
    } else {
      assert n2 == n1;
      var f := FallbackNuclei(rule, u, toks);
      assert forall i: nat :: i in f <==> IsFallbackAt(rule, u, toks)(i);
    }
  }

  /** The nuclei are ascending unit indices. */
  lemma FindNucleiValid(rule: LanguageRule, u: Unicode, toks: seq<SyllableToken>)
    ensures ValidNuclei(toks, FindNucleiSpec(rule, u, toks))
  {
    FindNucleiMembers(rule, u, toks);
  }

  /** Every nucleus is a VOWEL or a CONSONANT unit, never a separator. */
  lemma NucleiAreLetters(rule: LanguageRule, u: Unicode, toks: seq<SyllableToken>, k: nat)
    requires k < |FindNucleiSpec(rule, u, toks)|
    ensures var i := FindNucleiSpec(rule, u, toks)[k];
      i < |toks| && (toks[i].tokenClass == Vowel || toks[i].tokenClass == Consonant)
  {
    FindNucleiMembers(rule, u, toks);
    AfterSemivowelMembers(rule, u, toks);
    var i := FindNucleiSpec(rule, u, toks)[k];
    assert i in FindNucleiSpec(rule, u, toks);
  }

  /** The scan `for (j in (i - 1) downTo 0)` for the nearest vowel before `i`. */
  method DistanceToPrevVowel(toks: seq<SyllableToken>, i: nat) returns (dist: nat)
    requires i < |toks|
    ensures dist == DistToPrevVowel(toks, i)
  {
    dist := i + 1;
    var j: int := i - 1;
    while j >= 0
      invariant -1 <= j < i
      invariant VowelBefore(toks, i) == VowelBefore(toks, j + 1)
      decreases j
    {
      if toks[j].tokenClass == Vowel {
        dist := i - j;
        break;
      }
      j := j - 1;
    }
  }

  /** The scan `for (j in (i + 1) until tokens.size)` for the nearest vowel after `i`. */
  method DistanceToNextVowel(toks: seq<SyllableToken>, i: nat) returns (dist: nat)
    requires i < |toks|
    ensures dist == DistToNextVowel(toks, i)
  {
    dist := |toks| - i;
    var j := i + 1;
    while j < |toks|
      invariant i < j <= |toks|
      invariant VowelFrom(toks, i + 1) == VowelFrom(toks, j)
    {
      if toks[j].tokenClass == Vowel {
        dist := j - i;
        break;
      }
      j := j + 1;
    }
  }

  /** The semivowel check of `findNuclei`, on the vowel nuclei. */
  method DropFinalSemivowel(rule: LanguageRule, u: Unicode, toks: seq<SyllableToken>, vowels: seq<nat>)
    returns (nuclei: seq<nat>)
    requires vowels == VowelNuclei(toks)
    ensures nuclei == AfterSemivowel(rule, u, toks)
  {
    nuclei := vowels;
    if |nuclei| > 0 && rule.finalSemivowels != {} {
      var lastNucleusIdx := nuclei[|nuclei| - 1];
      var lastToken := toks[lastNucleusIdx];
      var isFinal := OnlyTrailing(toks, lastNucleusIdx + 1);
      if isFinal {
        if |lastToken.surface| > 0 && Lower(u, lastToken.surface)[0] in rule.finalSemivowels {
          if lastNucleusIdx > 0 {
            var prevIdx := lastNucleusIdx - 1;
            if toks[prevIdx].tokenClass == Consonant {
              nuclei := nuclei[..|nuclei| - 1];
            }
          }
        }
      }
    }
  }

  /** The syllabic-consonant scan of `findNuclei`. */
  method CollectSyllabic(rule: LanguageRule, u: Unicode, toks: seq<SyllableToken>) returns (syllabicNuclei: seq<nat>)
    ensures syllabicNuclei == SyllabicNuclei(rule, u, toks)
  {
    syllabicNuclei := [];
    for i := 0 to |toks|
      invariant syllabicNuclei == Indices(i, IsSyllabicAt(rule, u, toks))
    {
      var token := toks[i];
      if token.tokenClass != Consonant || |token.surface| == 0 {
        continue;
      }
      var c := Lower(u, token.surface)[0];
      if c !in rule.syllabicConsonants {
        continue;
      }
      var prevIsConsonant := i == 0 || toks[i - 1].tokenClass == Consonant;
      var nextIsConsonant := i == |toks| - 1 || toks[i + 1].tokenClass == Consonant;
      if !prevIsConsonant || !nextIsConsonant {
        continue;
      }
      var distToPrevVowel := DistanceToPrevVowel(toks, i);
      var distToNextVowel := DistanceToNextVowel(toks, i);
      if distToPrevVowel > 1 && distToNextVowel > 1 {
        syllabicNuclei := syllabicNuclei + [i];
      }
    }
  }

  /** The first pass of `findNuclei`: the VOWEL units in order. */
  method CollectVowels(toks: seq<SyllableToken>) returns (nuclei: seq<nat>)
    ensures nuclei == VowelNuclei(toks)
  {
    nuclei := [];
    for index := 0 to |toks|
      invariant nuclei == Indices(index, IsVowelAt(toks))
    {
      if toks[index].tokenClass == Vowel {
        nuclei := nuclei + [index];
      }
    }
  }

  /** The fallback pass of `findNuclei`: the CONSONANT units whose first character is syllabic. */
  method CollectFallback(rule: LanguageRule, u: Unicode, toks: seq<SyllableToken>) returns (nuclei: seq<nat>)
    ensures nuclei == FallbackNuclei(rule, u, toks)
  {
    nuclei := [];
    for index := 0 to |toks|
      invariant nuclei == Indices(index, IsFallbackAt(rule, u, toks))
    {
      var token := toks[index];
      if token.tokenClass == Consonant && |token.surface| > 0 && Lower(u, token.surface)[0] in rule.syllabicConsonants {
        nuclei := nuclei + [index];
      }
    }
  }

  /** `findNuclei`, pass by pass. */
  method FindNuclei(rule: LanguageRule, u: Unicode, toks: seq<SyllableToken>) returns (nuclei: seq<nat>)
    ensures nuclei == FindNucleiSpec(rule, u, toks)
  {
    nuclei := CollectVowels(toks);
    nuclei := DropFinalSemivowel(rule, u, toks, nuclei);
    if rule.syllabicConsonants != {} && |nuclei| > 0 {
      var syllabicNuclei := CollectSyllabic(rule, u, toks);
      if |syllabicNuclei| > 0 {
        nuclei := SortAscending(nuclei + syllabicNuclei);
      }
    }
    if |nuclei| > 0 {
      return;
    }
    nuclei := CollectFallback(rule, u, toks);
  }
}
