/**
 * `MetaRule.kt`: the rule set. Building it assigns every rule its unique
 * characters; detection ranks the rules by how well they cover a text.
 */
module MetaRules {
  import opened Text
  import opened LanguageRules

  /** The ordered rule set; its order is the tie-break order of detection. */
  datatype MetaRule = MetaRule(rules: seq<LanguageRule>)

  /**
   * The characters of `rule` that no rule of `rules` with a different
   * language code knows.
   */
  function UniqueChars(rule: LanguageRule, rules: seq<LanguageRule>): set<char>
  {
    set c | c in AllChars(rule) &&
      forall j :: 0 <= j < |rules| && rules[j].lang != rule.lang ==> c !in AllChars(rules[j])
  }

  lemma UniqueCharsSnoc(rule: LanguageRule, rules: seq<LanguageRule>, other: LanguageRule)
    ensures UniqueChars(rule, rules + [other])
         == if other.lang != rule.lang then UniqueChars(rule, rules) - AllChars(other) else UniqueChars(rule, rules)
  {
    var rules' := rules + [other];
    assert forall j :: 0 <= j < |rules| ==> rules'[j] == rules[j];
    assert rules'[|rules|] == other;
  }

  /**
   * The rule set's initializer as a pure builder: every rule is copied with
   * its `uniqueChars` computed against the whole list, and nothing else
   * changes.
   */
  function BuildMetaRule(initialRules: seq<LanguageRule>): (meta: MetaRule)
    ensures |meta.rules| == |initialRules|
    ensures forall i :: 0 <= i < |initialRules| ==>
      meta.rules[i] == initialRules[i].(uniqueChars := meta.rules[i].uniqueChars)
  {
    MetaRule(seq(|initialRules|, i requires 0 <= i < |initialRules| =>
      initialRules[i].(uniqueChars := UniqueChars(initialRules[i], initialRules))))
  }

  /**
   * Rule `i`'s unique characters are exactly those of its characters that no
   * rule with a different language code knows.
   */
  lemma BuildMetaRuleUniqueChars(initialRules: seq<LanguageRule>, i: nat)
    requires i < |initialRules|
    ensures var unique := BuildMetaRule(initialRules).rules[i].uniqueChars;
      && unique <= AllChars(initialRules[i])
      && AllChars(BuildMetaRule(initialRules).rules[i]) == AllChars(initialRules[i])
      && (forall j :: 0 <= j < |initialRules| && initialRules[j].lang != initialRules[i].lang ==>
            unique !! AllChars(initialRules[j]))
      && (forall c :: c in AllChars(initialRules[i]) &&
            (forall j :: 0 <= j < |initialRules| && initialRules[j].lang != initialRules[i].lang ==> c !in AllChars(initialRules[j]))
            ==> c in unique)
  {
  }

  /**
   * The unique characters of rules with different language codes are
   * pairwise disjoint.
   */
  lemma UniqueCharsDisjoint(initialRules: seq<LanguageRule>, i: nat, j: nat)
    requires i < |initialRules| && j < |initialRules|
    requires initialRules[i].lang != initialRules[j].lang
    ensures BuildMetaRule(initialRules).rules[i].uniqueChars !! BuildMetaRule(initialRules).rules[j].uniqueChars
  {
    BuildMetaRuleUniqueChars(initialRules, i);
    BuildMetaRuleUniqueChars(initialRules, j);
  }

  /** A rule's previous `uniqueChars` plays no part in building the set. */
  lemma BuildIgnoresPriorUniqueChars(initialRules: seq<LanguageRule>, reset: seq<LanguageRule>)
    requires |reset| == |initialRules|
    requires forall i :: 0 <= i < |initialRules| ==> reset[i] == initialRules[i].(uniqueChars := {})
    ensures BuildMetaRule(reset) == BuildMetaRule(initialRules)
  {
    assert forall j :: 0 <= j < |reset| ==> AllChars(reset[j]) == AllChars(initialRules[j]);
    assert forall i :: 0 <= i < |reset| ==> UniqueChars(reset[i], reset) == UniqueChars(initialRules[i], initialRules);
  }

  /** The initializer of `rules`, with its mutable set and `removeAll` loop. */
  method NewMetaRule(initialRules: seq<LanguageRule>) returns (meta: MetaRule)
    ensures meta == BuildMetaRule(initialRules)
  {
    var rules: seq<LanguageRule> := [];
    for i := 0 to |initialRules|
      invariant |rules| == i
      invariant forall k :: 0 <= k < i ==> rules[k] == BuildMetaRule(initialRules).rules[k]
    {
      var rule := initialRules[i];
      var uniqueChars := AllChars(rule);
      for j := 0 to |initialRules|
        invariant uniqueChars == UniqueChars(rule, initialRules[..j])
      {
        var otherRule := initialRules[j];
        UniqueCharsSnoc(rule, initialRules[..j], otherRule);
        assert initialRules[..j + 1] == initialRules[..j] + [otherRule];
        if otherRule.lang != rule.lang {
          uniqueChars := uniqueChars - AllChars(otherRule);
        }
      }
      assert initialRules[..|initialRules|] == initialRules;
      rules := rules + [rule.(uniqueChars := uniqueChars)];
    }
    meta := MetaRule(rules);
  }

  /** `getAllKnownChars`: every character some rule knows. */
  function AllKnownChars(rules: seq<LanguageRule>): (known: set<char>)
    ensures forall c :: c in known <==> exists i :: 0 <= i < |rules| && c in AllChars(rules[i])
  {
    if |rules| == 0 then {}
    else
      var known := AllKnownChars(rules[..|rules| - 1]) + AllChars(rules[|rules| - 1]);
      assert forall i :: 0 <= i < |rules| - 1 ==> rules[..|rules| - 1][i] == rules[i];
      known
  }

  function GetAllKnownChars(meta: MetaRule): set<char>
  {
    AllKnownChars(meta.rules)
  }

  // ---------------------------------------------------------------------
  // Detection


  /** A candidate of `findMatches`: the position of a rule and its score. */
  datatype Scored = Scored(index: nat, score: Ratio)

  /** `cleanText.any { it in rule.uniqueChars }`. */
  predicate MeetsUnique(rule: LanguageRule, clean: string)
  {
    exists c :: c in clean && c in rule.uniqueChars
  }

  /**
   * A rule's detection score: its coverage, raised to the maximum (written
   * `total / total`) when it is positive and the text holds one of the
   * rule's unique characters.
   */
  function DetectionScore(rule: LanguageRule, u: Unicode, text: string): (score: Ratio)
    ensures IsScore(score)
    ensures score.num > 0 <==> MatchScore(rule, u, text).num > 0
    ensures |CleanText(u, text)| > 0 ==> score.den == |CleanText(u, text)|
  {
    var clean := CleanText(u, text);
    var score := MatchScore(rule, u, text);
    if score.num > 0 && rule.uniqueChars != {} && MeetsUnique(rule, clean) then Ratio(|clean|, |clean|) else score
  }

  /** When the boost applies, and that it changes nothing otherwise. */
  lemma DetectionScoreBoost(rule: LanguageRule, u: Unicode, text: string)
    ensures var score := DetectionScore(rule, u, text);
      && (MatchScore(rule, u, text).num > 0 && rule.uniqueChars != {} && MeetsUnique(rule, CleanText(u, text)) ==>
            score.num == score.den)
      && (!MeetsUnique(rule, CleanText(u, text)) ==> score == MatchScore(rule, u, text))
  {
  }

  /** Every rule's detection score, in rule order. */
  function Scores(rules: seq<LanguageRule>, u: Unicode, text: string): (scores: seq<Ratio>)
    ensures |scores| == |rules|
  {
    if |rules| == 0 then [] else Scores(rules[..|rules| - 1], u, text) + [DetectionScore(rules[|rules| - 1], u, text)]
  }

  lemma {:induction false} ScoresAt(rules: seq<LanguageRule>, u: Unicode, text: string, i: nat)
    requires i < |rules|
    ensures Scores(rules, u, text)[i] == DetectionScore(rules[i], u, text)
  {
    if i < |rules| - 1 {
      ScoresAt(rules[..|rules| - 1], u, text, i);
    }
  }

  lemma ScoresValid(rules: seq<LanguageRule>, u: Unicode, text: string)
    ensures forall i :: 0 <= i < |rules| ==> Scores(rules, u, text)[i].den > 0
  {
    forall i | 0 <= i < |rules|
      ensures Scores(rules, u, text)[i].den > 0
    {
      ScoresAt(rules, u, text, i);
    }
  }

  predicate IndexIncreasing(s: seq<Scored>)
  {
    forall i, j :: 0 <= i < j < |s| ==> s[i].index < s[j].index
  }

  predicate IndexDistinct(s: seq<Scored>)
  {
    forall i, j :: 0 <= i < j < |s| ==> s[i].index != s[j].index
  }

  /** The candidates among the first `n` scores: those that are positive, in rule order. */
  function Collected(scores: seq<Ratio>, n: nat): seq<Scored>
    requires n <= |scores|
  {
    if n == 0 then []
    else Collected(scores, n - 1) + (if scores[n - 1].num > 0 then [Scored(n - 1, scores[n - 1])] else [])
  }

  lemma CollectedStep(scores: seq<Ratio>, i: nat)
    requires i < |scores|
    ensures Collected(scores, i + 1)
         == Collected(scores, i) + (if scores[i].num > 0 then [Scored(i, scores[i])] else [])
  {
  }

  /** Candidates come in rule order, each a positive score of a rule below `n`. */
  lemma {:induction false} CollectedSound(scores: seq<Ratio>, n: nat)
    requires n <= |scores|
    ensures var r := Collected(scores, n);
      && IndexIncreasing(r)
      && (forall k :: 0 <= k < |r| ==> r[k].index < n && r[k].score == scores[r[k].index] && r[k].score.num > 0)
  {
    if n > 0 {
      CollectedSound(scores, n - 1);
      CollectedStep(scores, n - 1);
    }
  }

  /** Every positive score is collected. */
  lemma {:induction false} CollectedComplete(scores: seq<Ratio>, n: nat, i: nat)
    requires i < n <= |scores| && scores[i].num > 0
    ensures exists k :: 0 <= k < |Collected(scores, n)| && Collected(scores, n)[k].index == i
  {
    var prev := Collected(scores, n - 1);
    CollectedStep(scores, n - 1);
    if i < n - 1 {
      CollectedComplete(scores, n - 1, i);
      var k :| 0 <= k < |prev| && prev[k].index == i;
      assert Collected(scores, n)[k] == prev[k];
    } else {
      assert Collected(scores, n)[|prev|].index == i;
    }
  }

  predicate ValidScores(s: seq<Scored>)
  {
    forall k :: 0 <= k < |s| ==> s[k].score.den > 0
  }

  /** Non-increasing by score. */
  predicate SortedDescending(s: seq<Scored>)
  {
    forall i, j :: 0 <= i < j < |s| ==> !Less(s[i].score, s[j].score)
  }

  /** Equal scores keep their original (rule) order. */
  predicate Stable(s: seq<Scored>)
  {
    forall i, j :: 0 <= i < j < |s| && !Less(s[i].score, s[j].score) && !Less(s[j].score, s[i].score) ==>
      s[i].index < s[j].index
  }

  // Facts about the order of scores, which need non-linear arithmetic.

  lemma MulMonotone(x: nat, y: nat, k: nat)
    requires x <= y
    ensures x * k <= y * k
  {
  }

  lemma MulCancel(x: nat, y: nat, k: nat)
    requires k > 0 && x * k <= y * k
    ensures x <= y
  {
  }

  /** `a <= b` and `b < c` give `a < c`. */
  lemma AtMostLessTransitive(a: Ratio, b: Ratio, c: Ratio)
    requires a.den > 0 && b.den > 0 && c.den > 0
    requires !Less(b, a) && Less(b, c)
    ensures Less(a, c)
  {
    MulMonotone(a.num * b.den, b.num * a.den, c.den);
    assert b.num * c.den + 1 <= c.num * b.den;
    MulMonotone(b.num * c.den + 1, c.num * b.den, a.den);
    assert a.num * b.den * c.den <= b.num * a.den * c.den;
    assert (b.num * c.den + 1) * a.den == b.num * c.den * a.den + a.den;
    assert (a.num * c.den) * b.den < (c.num * a.den) * b.den;
    if c.num * a.den <= a.num * c.den {
      MulMonotone(c.num * a.den, a.num * c.den, b.den);
    }
  }

  /** Where `x` goes: after every element whose score is at least its own. */
  function InsertPos(sorted: seq<Scored>, x: Scored): (p: nat)
    ensures p <= |sorted|
    ensures forall k :: 0 <= k < p ==> !Less(sorted[k].score, x.score)
    ensures p < |sorted| ==> Less(sorted[p].score, x.score)
  {
    if |sorted| == 0 || Less(sorted[0].score, x.score) then 0
    else 1 + InsertPos(sorted[1..], x)
  }

  function InsertByScore(sorted: seq<Scored>, x: Scored): seq<Scored>
  {
    var p := InsertPos(sorted, x);
    sorted[..p] + [x] + sorted[p..]
  }

  /** `sortedByDescending { it.second }`: a stable sort, here by insertion. */
  function SortByScoreDescending(s: seq<Scored>): (r: seq<Scored>)
    ensures multiset(r) == multiset(s)
  {
    if |s| == 0 then []
    else
      var init := SortByScoreDescending(s[..|s| - 1]);
      var p := InsertPos(init, s[|s| - 1]);
      assert s == s[..|s| - 1] + [s[|s| - 1]];
      assert init == init[..p] + init[p..];
      InsertByScore(init, s[|s| - 1])
  }

  /** The sort neither loses nor invents candidates. */
  lemma SortKeepsMembers(s: seq<Scored>)
    ensures forall x :: x in SortByScoreDescending(s) <==> x in s
  {
    var r := SortByScoreDescending(s);
    forall x
      ensures x in r <==> x in s
    {
      assert x in r <==> x in multiset(r);
      assert x in s <==> x in multiset(s);
    }
  }

  lemma SortKeepsIndicesBelow(s: seq<Scored>, n: nat)
    requires forall k :: 0 <= k < |s| ==> s[k].index < n
    ensures forall k :: 0 <= k < |SortByScoreDescending(s)| ==> SortByScoreDescending(s)[k].index < n
  {
    var r := SortByScoreDescending(s);
    SortKeepsMembers(s);
    forall k | 0 <= k < |r|
      ensures r[k].index < n
    {
      assert r[k] in s;
    }
  }

  /** Where the elements of `InsertByScore(sorted, x)` come from. */
  lemma InsertShape(sorted: seq<Scored>, x: Scored)
    ensures var p, r := InsertPos(sorted, x), InsertByScore(sorted, x);
      && |r| == |sorted| + 1
      && (forall k :: 0 <= k < p ==> r[k] == sorted[k])
      && r[p] == x
      && (forall k :: p < k < |r| ==> r[k] == sorted[k - 1])
  {
  }

  /** Everything after the insertion point scores strictly below `x`. */
  lemma AfterInsertPosBelow(sorted: seq<Scored>, x: Scored)
    requires ValidScores(sorted) && x.score.den > 0 && SortedDescending(sorted)
    ensures forall q :: InsertPos(sorted, x) <= q < |sorted| ==> Less(sorted[q].score, x.score)
  {
    var p := InsertPos(sorted, x);
    forall q | p <= q < |sorted|
      ensures Less(sorted[q].score, x.score)
    {
      if q > p {
        AtMostLessTransitive(sorted[q].score, sorted[p].score, x.score);
      }
    }
  }

  lemma InsertKeepsSorted(sorted: seq<Scored>, x: Scored)
    requires ValidScores(sorted) && x.score.den > 0 && SortedDescending(sorted)
    ensures SortedDescending(InsertByScore(sorted, x))
  {
    InsertShape(sorted, x);
    AfterInsertPosBelow(sorted, x);
  }

  lemma InsertKeepsStable(sorted: seq<Scored>, x: Scored)
    requires ValidScores(sorted) && x.score.den > 0 && SortedDescending(sorted) && Stable(sorted)
    requires forall k :: 0 <= k < |sorted| ==> sorted[k].index < x.index
    ensures Stable(InsertByScore(sorted, x))
  {
    InsertShape(sorted, x);
    AfterInsertPosBelow(sorted, x);
    var p, r := InsertPos(sorted, x), InsertByScore(sorted, x);
    forall a, b | 0 <= a < b < |r| && !Less(r[a].score, r[b].score) && !Less(r[b].score, r[a].score)
      ensures r[a].index < r[b].index
    {
      assert a != p;
    }
  }

  lemma InsertKeepsDistinct(sorted: seq<Scored>, x: Scored)
    requires IndexDistinct(sorted)
    requires forall k :: 0 <= k < |sorted| ==> sorted[k].index < x.index
    ensures IndexDistinct(InsertByScore(sorted, x))
  {
    InsertShape(sorted, x);
  }

  /**
   * The sort orders by non-increasing score, keeps ties in input order and
   * keeps indices distinct.
   */
  lemma {:induction false} SortByScoreDescendingCorrect(s: seq<Scored>)
    requires ValidScores(s) && IndexIncreasing(s)
    ensures var r := SortByScoreDescending(s);
      SortedDescending(r) && Stable(r) && IndexDistinct(r) && ValidScores(r)
  {
    if |s| > 0 {
      var front, x := s[..|s| - 1], s[|s| - 1];
      SortByScoreDescendingCorrect(front);
      SortKeepsMembers(front);
      SortKeepsMembers(s);
      var init := SortByScoreDescending(front);
      forall k | 0 <= k < |init|
        ensures init[k].index < x.index && init[k].score.den > 0
      {
        assert init[k] in front;
      }
      InsertKeepsSorted(init, x);
      InsertKeepsStable(init, x);
      InsertKeepsDistinct(init, x);
      var r := SortByScoreDescending(s);
      forall k | 0 <= k < |r|
        ensures r[k].score.den > 0
      {
        assert r[k] in s;
      }
    }
  }

  /**
   * `findMatches` on scores: empty when the text has no letters; otherwise
   * the positive-score candidates sorted by score.
   */
  function RankedScores(meta: MetaRule, u: Unicode, text: string): (r: seq<Scored>)
    ensures forall k :: 0 <= k < |r| ==> r[k].index < |meta.rules|
  {
    if |text| == 0 then []
    else if |CleanText(u, text)| == 0 then []
    else
      var c := Collected(Scores(meta.rules, u, text), |meta.rules|);
      CollectedSound(Scores(meta.rules, u, text), |meta.rules|);
      SortKeepsIndicesBelow(c, |meta.rules|);
      SortByScoreDescending(c)
  }

  /** `findMatches`: the ranked rules themselves. */
  function RankedRules(meta: MetaRule, u: Unicode, text: string): (ranked: seq<LanguageRule>)
    ensures |ranked| == |RankedScores(meta, u, text)|
    ensures forall k :: 0 <= k < |ranked| ==> ranked[k] in meta.rules
  {
    var scores := RankedScores(meta, u, text);
    seq(|scores|, k requires 0 <= k < |scores| => meta.rules[scores[k].index])
  }

  lemma RankedScoresUnfold(meta: MetaRule, u: Unicode, text: string)
    requires |CleanText(u, text)| > 0
    ensures RankedScores(meta, u, text) == SortByScoreDescending(Collected(Scores(meta.rules, u, text), |meta.rules|))
  {
  }

  /** Every ranked candidate is a rule with a positive score, carrying its detection score. */
  lemma RankedScoresSound(meta: MetaRule, u: Unicode, text: string, k: nat)
    requires k < |RankedScores(meta, u, text)|
    ensures var x := RankedScores(meta, u, text)[k];
      MatchScore(meta.rules[x.index], u, text).num > 0 && x.score == DetectionScore(meta.rules[x.index], u, text)
  {
    var scores := Scores(meta.rules, u, text);
    var c := Collected(scores, |meta.rules|);
    RankedScoresUnfold(meta, u, text);
    SortMemberOfInput(c, k);
    CollectedSound(scores, |meta.rules|);
    var m :| 0 <= m < |c| && c[m] == RankedScores(meta, u, text)[k];
    ScoresAt(meta.rules, u, text, c[m].index);
  }

  /** Every rule with a positive score is ranked. */
  lemma RankedScoresComplete(meta: MetaRule, u: Unicode, text: string, i: nat)
    requires i < |meta.rules| && MatchScore(meta.rules[i], u, text).num > 0
    ensures exists k :: 0 <= k < |RankedScores(meta, u, text)| && RankedScores(meta, u, text)[k].index == i
  {
    var scores := Scores(meta.rules, u, text);
    var c := Collected(scores, |meta.rules|);
    RankedScoresUnfold(meta, u, text);
    ScoresAt(meta.rules, u, text, i);
    CollectedComplete(scores, |meta.rules|, i);
    var m :| 0 <= m < |c| && c[m].index == i;
    InputMemberOfSort(c, m);
    var k :| 0 <= k < |SortByScoreDescending(c)| && SortByScoreDescending(c)[k] == c[m];
    assert RankedScores(meta, u, text)[k].index == i;
  }

  lemma SortMemberOfInput(s: seq<Scored>, k: nat)
    requires k < |SortByScoreDescending(s)|
    ensures exists m :: 0 <= m < |s| && s[m] == SortByScoreDescending(s)[k]
  {
    var r := SortByScoreDescending(s);
    assert r[k] in multiset(r);
    assert r[k] in s;
  }

  lemma InputMemberOfSort(s: seq<Scored>, m: nat)
    requires m < |s|
    ensures exists k :: 0 <= k < |SortByScoreDescending(s)| && SortByScoreDescending(s)[k] == s[m]
  {
    var r := SortByScoreDescending(s);
    assert s[m] in multiset(s);
    assert s[m] in r;
  }

  /**
   * Which rules detection returns: none for a text without letters;
   * otherwise exactly the rules with a positive score, each with its
   * detection score.
   */
  lemma RankedScoresMembers(meta: MetaRule, u: Unicode, text: string)
    ensures var r := RankedScores(meta, u, text);
      && (|CleanText(u, text)| == 0 ==> r == [])
      && (forall k :: 0 <= k < |r| ==>
            MatchScore(meta.rules[r[k].index], u, text).num > 0 && r[k].score == DetectionScore(meta.rules[r[k].index], u, text))
      && (forall i :: 0 <= i < |meta.rules| && MatchScore(meta.rules[i], u, text).num > 0 ==>
            exists k :: 0 <= k < |r| && r[k].index == i)
  {
    forall k | 0 <= k < |RankedScores(meta, u, text)|
      ensures var x := RankedScores(meta, u, text)[k];
        MatchScore(meta.rules[x.index], u, text).num > 0 && x.score == DetectionScore(meta.rules[x.index], u, text)
    {
      RankedScoresSound(meta, u, text, k);
    }
    forall i | 0 <= i < |meta.rules| && MatchScore(meta.rules[i], u, text).num > 0
      ensures exists k :: 0 <= k < |RankedScores(meta, u, text)| && RankedScores(meta, u, text)[k].index == i
    {
      RankedScoresComplete(meta, u, text, i);
    }
  }

  /**
   * In which order: by non-increasing score, ties in rule-set order, and no
   * rule twice.
   */
  lemma RankedScoresOrder(meta: MetaRule, u: Unicode, text: string)
    ensures var r := RankedScores(meta, u, text); SortedDescending(r) && Stable(r) && IndexDistinct(r)
  {
    if |text| > 0 && |CleanText(u, text)| > 0 {
      var scores := Scores(meta.rules, u, text);
      var c := Collected(scores, |meta.rules|);
      CollectedSound(scores, |meta.rules|);
      ScoresValid(meta.rules, u, text);
      SortByScoreDescendingCorrect(c);
    }
  }

  /**
   * In a sequence sorted by score, a candidate holding the only maximal
   * score comes first.
   */
  lemma SoleMaximumFirst(r: seq<Scored>, i: nat, total: nat)
    requires total > 0 && SortedDescending(r)
    requires forall k :: 0 <= k < |r| ==> r[k].score.den == total
    requires forall k :: 0 <= k < |r| && r[k].index != i ==> r[k].score.num < total
    requires exists k :: 0 <= k < |r| && r[k].index == i && r[k].score.num == total
    ensures |r| > 0 && r[0].index == i
  {
    var k :| 0 <= k < |r| && r[k].index == i && r[k].score.num == total;
    if k > 0 && r[0].index != i {
      assert !Less(r[0].score, r[k].score);
      MulCancel(total, r[0].score.num, total);
      assert false;
    }
  }

  /** A rule whose unique character occurs in the text scores above zero. */
  lemma UniqueCharMatches(initialRules: seq<LanguageRule>, u: Unicode, text: string, i: nat, c: char)
    requires i < |initialRules|
    requires c in CleanText(u, text) && c in BuildMetaRule(initialRules).rules[i].uniqueChars
    ensures MatchScore(BuildMetaRule(initialRules).rules[i], u, text).num > 0
  {
    BuildMetaRuleUniqueChars(initialRules, i);
    MatchScorePositive(BuildMetaRule(initialRules).rules[i], u, text);
  }

  lemma UniqueCharNotElsewhere(initialRules: seq<LanguageRule>, i: nat, j: nat, c: char)
    requires i < |initialRules| && j < |initialRules|
    requires initialRules[j].lang != initialRules[i].lang
    requires c in BuildMetaRule(initialRules).rules[i].uniqueChars
    ensures c !in AllChars(BuildMetaRule(initialRules).rules[j])
  {
    BuildMetaRuleUniqueChars(initialRules, i);
    BuildMetaRuleUniqueChars(initialRules, j);
  }

  /** A rule that misses one of the text's letters is below the maximal score. */
  lemma MissingLetterBelowMaximum(rule: LanguageRule, u: Unicode, text: string, c: char)
    requires c in CleanText(u, text) && c !in AllChars(rule)
    requires !MeetsUnique(rule, CleanText(u, text))
    ensures DetectionScore(rule, u, text).num < |CleanText(u, text)|
  {
    MatchScoreFull(rule, u, text);
    DetectionScoreBoost(rule, u, text);
  }

  /**
   * A rule of another language that misses the text's unique character of
   * rule `i` cannot reach the maximal score.
   */
  lemma OtherRuleBelowMaximum(initialRules: seq<LanguageRule>, u: Unicode, text: string, i: nat, j: nat, c: char)
    requires i < |initialRules| && j < |initialRules|
    requires initialRules[j].lang != initialRules[i].lang
    requires c in CleanText(u, text) && c in BuildMetaRule(initialRules).rules[i].uniqueChars
    requires !MeetsUnique(BuildMetaRule(initialRules).rules[j], CleanText(u, text))
    ensures DetectionScore(BuildMetaRule(initialRules).rules[j], u, text).num < |CleanText(u, text)|
  {
    UniqueCharNotElsewhere(initialRules, i, j, c);
    MissingLetterBelowMaximum(BuildMetaRule(initialRules).rules[j], u, text, c);
  }

  /**
   * A rule of the same language that does not meet the text's unique
   * characters misses the unique character `c` of rule `i`: had it `c`, no
   * other language would have it either, so `c` would be unique to it too.
   */
  lemma SameCodeBelowMaximum(initialRules: seq<LanguageRule>, u: Unicode, text: string, i: nat, j: nat, c: char)
    requires i < |initialRules| && j < |initialRules|
    requires initialRules[j].lang == initialRules[i].lang
    requires c in CleanText(u, text) && c in BuildMetaRule(initialRules).rules[i].uniqueChars
    requires !MeetsUnique(BuildMetaRule(initialRules).rules[j], CleanText(u, text))
    ensures DetectionScore(BuildMetaRule(initialRules).rules[j], u, text).num < |CleanText(u, text)|
  {
    var rules := BuildMetaRule(initialRules).rules;
    BuildMetaRuleUniqueChars(initialRules, i);
    BuildMetaRuleUniqueChars(initialRules, j);
    MissingLetterBelowMaximum(rules[j], u, text, c);
  }

  /** The score of the `k`-th candidate when the text holds a unique character `c` of rule `i` only. */
  lemma RankedAgainstUniqueChar(initialRules: seq<LanguageRule>, u: Unicode, text: string, i: nat, c: char, k: nat)
    requires i < |initialRules|
    requires c in CleanText(u, text) && c in BuildMetaRule(initialRules).rules[i].uniqueChars
    requires forall j :: 0 <= j < |initialRules| && j != i ==>
      !MeetsUnique(BuildMetaRule(initialRules).rules[j], CleanText(u, text))
    requires k < |RankedScores(BuildMetaRule(initialRules), u, text)|
    ensures var x := RankedScores(BuildMetaRule(initialRules), u, text)[k];
      && x.score.den == |CleanText(u, text)|
      && (x.index == i ==> x.score.num == |CleanText(u, text)|)
      && (x.index != i ==> x.score.num < |CleanText(u, text)|)
  {
    var meta := BuildMetaRule(initialRules);
    var x := RankedScores(meta, u, text)[k];
    RankedScoresSound(meta, u, text, k);
    if x.index != i && initialRules[x.index].lang != initialRules[i].lang {
      OtherRuleBelowMaximum(initialRules, u, text, i, x.index, c);
    } else if x.index != i {
      SameCodeBelowMaximum(initialRules, u, text, i, x.index, c);
    } else {
      UniqueCharMatches(initialRules, u, text, i, c);
      DetectionScoreBoost(meta.rules[i], u, text);
    }
  }

  /**
   * When the text holds a unique character of rule `i` and of no other rule,
   * rule `i` ranks first.
   */
  lemma UniqueCharRanksFirst(initialRules: seq<LanguageRule>, u: Unicode, text: string, i: nat)
    requires i < |initialRules|
    requires MeetsUnique(BuildMetaRule(initialRules).rules[i], CleanText(u, text))
    requires forall j :: 0 <= j < |initialRules| && j != i ==>
      !MeetsUnique(BuildMetaRule(initialRules).rules[j], CleanText(u, text))
    ensures |RankedScores(BuildMetaRule(initialRules), u, text)| > 0
    ensures RankedScores(BuildMetaRule(initialRules), u, text)[0].index == i
  {
    var meta := BuildMetaRule(initialRules);
    var rules := meta.rules;
    var clean := CleanText(u, text);
    var c :| c in clean && c in rules[i].uniqueChars;
    var total := |clean|;
    UniqueCharMatches(initialRules, u, text, i, c);
    var r := RankedScores(meta, u, text);
    forall k | 0 <= k < |r|
      ensures r[k].score.den == total
      ensures r[k].index == i ==> r[k].score.num == total
      ensures r[k].index != i ==> r[k].score.num < total
    {
      RankedAgainstUniqueChar(initialRules, u, text, i, c, k);
    }
    RankedScoresComplete(meta, u, text, i);
    var k :| 0 <= k < |r| && r[k].index == i;
    assert r[k].score.num == total;
    RankedScoresOrder(meta, u, text);
    SoleMaximumFirst(r, i, total);
  }

  /** One step of the scoring loop, in the form `findMatches` computes it. */
  lemma CollectedStepAsComputed(rules: seq<LanguageRule>, u: Unicode, text: string, i: nat)
    requires i < |rules|
    ensures var score, clean := MatchScore(rules[i], u, text), CleanText(u, text);
      Collected(Scores(rules, u, text), i + 1) == Collected(Scores(rules, u, text), i) +
        if score.num > 0 then
          [Scored(i, if rules[i].uniqueChars != {} && MeetsUnique(rules[i], clean) then Ratio(|clean|, |clean|) else score)]
        else []
  {
    CollectedStep(Scores(rules, u, text), i);
    ScoresAt(rules, u, text, i);
  }

  /** The scoring loop of `findMatches`: score every rule, keep the positive ones, boosted. */
  method CollectMatches(meta: MetaRule, u: Unicode, text: string, cleanText: string) returns (matches: seq<Scored>)
    requires cleanText == CleanText(u, text)
    ensures matches == Collected(Scores(meta.rules, u, text), |meta.rules|)
  {
    ghost var scores := Scores(meta.rules, u, text);
    matches := [];
    for i := 0 to |meta.rules|
      invariant matches == Collected(scores, i)
    {
      var rule := meta.rules[i];
      var score := CalculateMatchScore(rule, u, text);
      if score.num > 0 {
        if rule.uniqueChars != {} && MeetsUnique(rule, cleanText) {
          score := Ratio(|cleanText|, |cleanText|);
        }
        matches := matches + [Scored(i, score)];
      }
      CollectedStepAsComputed(meta.rules, u, text, i);
    }
  }

  /** `findMatches` as the source runs it: the scoring loop, then a stable sort. */
  method FindMatches(meta: MetaRule, u: Unicode, text: string) returns (result: seq<LanguageRule>)
    ensures result == RankedRules(meta, u, text)
  {
    if |text| == 0 {
      return [];
    }
    var cleanText := CleanText(u, text);
    if |cleanText| == 0 {
      return [];
    }
    var matches := CollectMatches(meta, u, text, cleanText);
    var sorted := SortByScoreDescending(matches);
    RankedScoresUnfold(meta, u, text);
    result := seq(|sorted|, k requires 0 <= k < |sorted| => meta.rules[sorted[k].index]);
  }
}
