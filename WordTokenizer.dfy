/**
 * `Tokenizer.tokenize`: the split of a text into maximal runs of letters and
 * marks (words, the matches of `[\p{L}\p{M}]+`) and the gaps between them.
 */
module WordTokenizer {
  import opened Text
  import opened Tokens

  /** A character the class `[\p{L}\p{M}]` matches. */
  predicate IsWordChar(u: Unicode, c: char)
  {
    u.isLetter(c) || u.isMark(c)
  }

  function TypeOf(w: bool): TokenType
  {
    if w then Word else NonWord
  }

  /**
   * The first index at or after `i` whose character does not have word-ness
   * `w` (or the end of the text).
   */
  function RunEnd(u: Unicode, text: string, i: nat, w: bool): (j: nat)
    requires i <= |text|
    ensures i <= j <= |text|
    decreases |text| - i
  {
    if i == |text| || IsWordChar(u, text[i]) != w then i else RunEnd(u, text, i + 1, w)
  }

  /** `RunEnd` stops at the first character of the other kind, and nowhere else. */
  lemma {:induction false} RunEndIs(u: Unicode, text: string, i: nat, w: bool, j: nat)
    requires i <= j <= |text|
    requires forall k :: i <= k < j ==> IsWordChar(u, text[k]) == w
    requires j == |text| || IsWordChar(u, text[j]) != w
    ensures RunEnd(u, text, i, w) == j
    decreases j - i
  {
    if i < j {
      RunEndIs(u, text, i + 1, w, j);
    }
  }

  lemma {:induction false} RunEndStops(u: Unicode, text: string, i: nat, w: bool)
    requires i <= |text|
    ensures var j := RunEnd(u, text, i, w);
      (forall k :: i <= k < j ==> IsWordChar(u, text[k]) == w) &&
      (j == |text| || IsWordChar(u, text[j]) != w)
    decreases |text| - i
  {
    if i < |text| && IsWordChar(u, text[i]) == w {
      RunEndStops(u, text, i + 1, w);
    }
  }

  /** The tokens of `text[i..]`: one per maximal run, in order. */
  function TokensFrom(u: Unicode, text: string, i: nat): seq<Token>
    requires i <= |text|
    decreases |text| - i
  {
    if i == |text| then []
    else
      var w := IsWordChar(u, text[i]);
      var j := RunEnd(u, text, i + 1, w);
      [Token(text[i..j], TypeOf(w))] + TokensFrom(u, text, j)
  }

  /** The result of `tokenize(text)`. */
  function WordTokens(u: Unicode, text: string): seq<Token>
  {
    TokensFrom(u, text, 0)
  }

  /** Every character of `t` is of the kind its type names. */
  predicate Homogeneous(u: Unicode, t: Token)
  {
    forall j :: 0 <= j < |t.text| ==> (IsWordChar(u, t.text[j]) <==> t.tokenType == Word)
  }

  /** Neighbouring tokens are of different types. */
  predicate Alternates(tokens: seq<Token>)
  {
    |tokens| <= 1 || (tokens[0].tokenType != tokens[1].tokenType && Alternates(tokens[1..]))
  }

  /**
   * A split into runs: no token is empty, each token holds only one kind of
   * character, and words and non-words alternate.
   */
  predicate WellFormed(u: Unicode, tokens: seq<Token>)
  {
    && (forall k :: 0 <= k < |tokens| ==> |tokens[k].text| > 0 && Homogeneous(u, tokens[k]))
    && Alternates(tokens)
  }

  lemma TextsCons(t: Token, rest: seq<Token>)
    ensures Concat(Texts([t] + rest)) == t.text + Concat(Texts(rest))
  {
    assert Texts([t] + rest) == [t.text] + Texts(rest);
    ConcatCons(t.text, Texts(rest));
  }

  /** One step of the split: the run starting at `i` ends at `j`. */
  lemma TokensFromStep(u: Unicode, text: string, i: nat, j: nat)
    requires i < j <= |text|
    requires forall k :: i <= k < j ==> IsWordChar(u, text[k]) == IsWordChar(u, text[i])
    requires j == |text| || IsWordChar(u, text[j]) != IsWordChar(u, text[i])
    ensures TokensFrom(u, text, i) == [Token(text[i..j], TypeOf(IsWordChar(u, text[i])))] + TokensFrom(u, text, j)
  {
    RunEndIs(u, text, i + 1, IsWordChar(u, text[i]), j);
  }

  /** The split of `text[i..]` starts with a token of the kind of `text[i]`. */
  lemma TokensFromHead(u: Unicode, text: string, i: nat)
    requires i < |text|
    ensures |TokensFrom(u, text, i)| > 0
    ensures TokensFrom(u, text, i)[0].tokenType == TypeOf(IsWordChar(u, text[i]))
  {
  }

  /** The first token of the split of `text[i..]` is a nonempty run of one kind. */
  lemma TokensFromFirstRun(u: Unicode, text: string, i: nat)
    requires i < |text|
    ensures |TokensFrom(u, text, i)[0].text| > 0
    ensures Homogeneous(u, TokensFrom(u, text, i)[0])
  {
    var w := IsWordChar(u, text[i]);
    var j := RunEnd(u, text, i + 1, w);
    RunEndStops(u, text, i + 1, w);
    var t := TokensFrom(u, text, i)[0];
    assert t.text == text[i..j];
    forall k | 0 <= k < |t.text|
      ensures IsWordChar(u, t.text[k]) == w
    {
      assert t.text[k] == text[i + k];
    }
  }

  /** The split of `text[i..]` is well formed. */
  lemma {:induction false} TokensFromWellFormed(u: Unicode, text: string, i: nat)
    requires i <= |text|
    ensures WellFormed(u, TokensFrom(u, text, i))
    decreases |text| - i
  {
    if i < |text| {
      var w := IsWordChar(u, text[i]);
      var j := RunEnd(u, text, i + 1, w);
      RunEndStops(u, text, i + 1, w);
      TokensFromWellFormed(u, text, j);
      TokensFromFirstRun(u, text, i);
      var all := TokensFrom(u, text, i);
      var rest := TokensFrom(u, text, j);
      assert all[1..] == rest;
      if j < |text| {
        TokensFromHead(u, text, j);
        assert all[1] == rest[0];
      }
      forall k | 0 <= k < |all|
        ensures |all[k].text| > 0 && Homogeneous(u, all[k])
      {
        if k > 0 {
          assert all[k] == rest[k - 1];
        }
      }
    }
  }

  /** Joining the texts of the split of `text[i..]` rebuilds `text[i..]`. */
  lemma {:induction false} TokensFromRebuild(u: Unicode, text: string, i: nat)
    requires i <= |text|
    ensures Concat(Texts(TokensFrom(u, text, i))) == text[i..]
    decreases |text| - i
  {
    if i < |text| {
      var w := IsWordChar(u, text[i]);
      var j := RunEnd(u, text, i + 1, w);
      TokensFromRebuild(u, text, j);
      TextsCons(Token(text[i..j], TypeOf(w)), TokensFrom(u, text, j));
      assert text[i..] == text[i..j] + text[j..];
    }
  }

  /** `tokens` is a well-formed tokenization of `text[i..]`. */
  predicate Tokenizes(u: Unicode, text: string, i: nat, tokens: seq<Token>)
  {
    i <= |text| && WellFormed(u, tokens) && Concat(Texts(tokens)) == text[i..]
  }

  /**
   * The split into runs is the only well-formed tokenization that rebuilds
   * the text: `tokenize` yields exactly the maximal letter-or-mark runs and
   * the gaps between them.
   */
  lemma {:induction false} TokensFromUnique(u: Unicode, text: string, i: nat, tokens: seq<Token>)
    requires Tokenizes(u, text, i, tokens)
    ensures tokens == TokensFrom(u, text, i)
    decreases |text| - i
  {
    if |tokens| == 0 {
      assert Texts(tokens) == [];
    } else {
      var j := UniqueStep(u, text, i, tokens);
      TokensFromUnique(u, text, j, tokens[1..]);
      HeadTail(tokens, TokensFrom(u, text, i), TokensFrom(u, text, j));
    }
  }

  /** A sequence is its head followed by its tail. */
  lemma HeadTail<T>(s: seq<T>, whole: seq<T>, tail: seq<T>)
    requires |s| > 0 && whole == [s[0]] + tail && s[1..] == tail
    ensures s == whole
  {
    assert s == [s[0]] + s[1..];
  }

  /** The first token of a well-formed tokenization of `text[i..]` is the first run. */
  lemma UniqueStep(u: Unicode, text: string, i: nat, tokens: seq<Token>) returns (j: nat)
    requires Tokenizes(u, text, i, tokens) && |tokens| > 0
    ensures j == i + |tokens[0].text| && i < j <= |text|
    ensures Tokenizes(u, text, j, tokens[1..])
    ensures TokensFrom(u, text, i) == [tokens[0]] + TokensFrom(u, text, j)
  {
    j := i + |tokens[0].text|;
    SplitFirst(text, i, tokens);
    FirstRunKind(u, text, i, tokens);
    RestWellFormed(u, tokens);
    if j < |text| {
      NextRunKind(u, text, i, tokens);
    }
    TokensFromStep(u, text, i, j);
  }

  /** A tokenization of `text[i..]` starts with a prefix of it and continues with the rest. */
  lemma SplitFirst(text: string, i: nat, tokens: seq<Token>)
    requires i <= |text| && |tokens| > 0
    requires Concat(Texts(tokens)) == text[i..]
    ensures i + |tokens[0].text| <= |text|
    ensures text[i..i + |tokens[0].text|] == tokens[0].text
    ensures Concat(Texts(tokens[1..])) == text[i + |tokens[0].text|..]
  {
    var t, rest := tokens[0], tokens[1..];
    assert tokens == [t] + rest;
    TextsCons(t, rest);
    var j := i + |t.text|;
    assert text[i..] == text[i..j] + text[j..];
  }

  lemma FirstRunKind(u: Unicode, text: string, i: nat, tokens: seq<Token>)
    requires WellFormed(u, tokens) && |tokens| > 0
    requires i + |tokens[0].text| <= |text|
    requires text[i..i + |tokens[0].text|] == tokens[0].text
    ensures i < |text| && tokens[0].tokenType == TypeOf(IsWordChar(u, text[i]))
    ensures forall k :: i <= k < i + |tokens[0].text| ==> IsWordChar(u, text[k]) == IsWordChar(u, text[i])
  {
    var t := tokens[0];
    assert text[i] == t.text[0];
    forall k | i <= k < i + |t.text|
      ensures IsWordChar(u, text[k]) == IsWordChar(u, text[i])
    {
      assert text[k] == t.text[k - i];
    }
  }

  lemma RestWellFormed(u: Unicode, tokens: seq<Token>)
    requires WellFormed(u, tokens) && |tokens| > 0
    ensures WellFormed(u, tokens[1..])
  {
    var rest := tokens[1..];
    forall k | 0 <= k < |rest|
      ensures |rest[k].text| > 0 && Homogeneous(u, rest[k])
    {
      assert rest[k] == tokens[k + 1];
    }
  }

  lemma NextRunKind(u: Unicode, text: string, i: nat, tokens: seq<Token>)
    requires WellFormed(u, tokens) && |tokens| > 0
    requires i + |tokens[0].text| < |text|
    requires text[i..i + |tokens[0].text|] == tokens[0].text
    requires Concat(Texts(tokens[1..])) == text[i + |tokens[0].text|..]
    ensures IsWordChar(u, text[i + |tokens[0].text|]) != IsWordChar(u, text[i])
  {
    var t, rest := tokens[0], tokens[1..];
    var j := i + |t.text|;
    assert |rest| > 0;
    TextsCons(rest[0], rest[1..]);
    assert rest == [rest[0]] + rest[1..];
    assert text[j] == rest[0].text[0];
    assert text[i] == t.text[0];
    assert rest[0] == tokens[1];
  }

  /** Joining the token texts rebuilds the input; an empty text has no tokens. */
  lemma WordTokensRebuild(u: Unicode, text: string)
    ensures Concat(Texts(WordTokens(u, text))) == text
    ensures |text| == 0 <==> WordTokens(u, text) == []
  {
    TokensFromRebuild(u, text, 0);
    assert text[0..] == text;
  }

  /**
   * No token is empty, words hold only letters and marks, non-words hold
   * none, and the two kinds alternate, so every word is a maximal run.
   */
  lemma WordTokensWellFormed(u: Unicode, text: string)
    ensures WellFormed(u, WordTokens(u, text))
  {
    TokensFromWellFormed(u, text, 0);
  }

  /** Scans from `i` over the characters of word-ness `w`: one step of the pattern engine. */
  method ScanRun(u: Unicode, text: string, i: nat, w: bool) returns (j: nat)
    requires i <= |text|
    ensures j == RunEnd(u, text, i, w)
  {
    j := i;
    while j < |text| && IsWordChar(u, text[j]) == w
      invariant i <= j <= |text|
      invariant RunEnd(u, text, j, w) == RunEnd(u, text, i, w)
      decreases |text| - j
    {
      j := j + 1;
    }
  }

  /**
   * One match of the pattern after `lastEnd`: the split of `text[lastEnd..]`
   * is the gap before the match (if any), the match, and the split after it.
   */
  lemma MatchStep(u: Unicode, text: string, lastEnd: nat, first: nat, end: nat)
    requires lastEnd <= first < |text|
    requires first == RunEnd(u, text, lastEnd, false) && end == RunEnd(u, text, first + 1, true)
    ensures first < end <= |text|
    ensures TokensFrom(u, text, lastEnd) ==
      (if first > lastEnd then [Token(text[lastEnd..first], NonWord)] else []) +
      ([Token(text[first..end], Word)] + TokensFrom(u, text, end))
  {
    RunEndStops(u, text, lastEnd, false);
    RunEndStops(u, text, first + 1, true);
    if first > lastEnd {
      TokensFromStep(u, text, lastEnd, first);
    }
    TokensFromStep(u, text, first, end);
  }

  /** Without a further match, the rest of the text is one NON_WORD token. */
  lemma NoMoreMatches(u: Unicode, text: string, lastEnd: nat)
    requires lastEnd < |text| && RunEnd(u, text, lastEnd, false) == |text|
    ensures TokensFrom(u, text, lastEnd) == [Token(text[lastEnd..], NonWord)]
  {
    RunEndStops(u, text, lastEnd, false);
    TokensFromStep(u, text, lastEnd, |text|);
    assert text[lastEnd..] == text[lastEnd..|text|];
  }

  lemma Regroup<T>(acc: seq<T>, mid: seq<T>, rest: seq<T>, whole: seq<T>)
    requires acc + (mid + rest) == whole
    ensures (acc + mid) + rest == whole
  {
    assert acc + (mid + rest) == (acc + mid) + rest;
  }

  /** `tokenize` as the source runs it: a scan from match to match, tracking `lastEnd`. */
  method Tokenize(u: Unicode, text: string) returns (tokens: seq<Token>)
    ensures tokens == WordTokens(u, text)
  {
    tokens := [];
    var lastEnd := 0;
    while lastEnd < |text|
      invariant lastEnd <= |text|
      invariant tokens + TokensFrom(u, text, lastEnd) == WordTokens(u, text)
      decreases |text| - lastEnd
    {
      // the next match of the pattern, `text[first..end]`
      var first := ScanRun(u, text, lastEnd, false);
      if first == |text| {
        break;
      }
      var end := ScanRun(u, text, first + 1, true);
      MatchStep(u, text, lastEnd, first, end);
      ghost var rest := [Token(text[first..end], Word)] + TokensFrom(u, text, end);
      if first > lastEnd {
        Regroup(tokens, [Token(text[lastEnd..first], NonWord)], rest, WordTokens(u, text));
        tokens := tokens + [Token(text[lastEnd..first], NonWord)];
      } else {
        assert [] + rest == rest;
      }
      Regroup(tokens, [Token(text[first..end], Word)], TokensFrom(u, text, end), WordTokens(u, text));
      tokens := tokens + [Token(text[first..end], Word)];
      lastEnd := end;
    }
    if lastEnd < |text| {
      NoMoreMatches(u, text, lastEnd);
      tokens := tokens + [Token(text[lastEnd..], NonWord)];
    } else {
      assert tokens + [] == tokens;
    }
  }
}
