/**
 * Strings, the platform's character semantics and small sequence helpers
 * shared by every other module of the model.
 */
module Text {

  datatype Option<T> = None | Some(value: T)

  /**
   * The character semantics the system borrows from the JVM instead of
   * defining itself. They are left uninterpreted:
   *  - `lower` is `lowercase()`, taken as a per-character, length-preserving
   *    map (the source indexes the lowered word with positions of the word);
   *  - `isLetter` is `Char.isLetter` (Unicode category L);
   *  - `isMark` is membership of Unicode category M.
   */
  datatype Unicode = Unicode(lower: char -> char, isLetter: char -> bool, isMark: char -> bool)

  /** `s.lowercase()`. */
  function Lower(u: Unicode, s: string): (r: string)
    ensures |r| == |s|
  {
    seq(|s|, i requires 0 <= i < |s| => u.lower(s[i]))
  }

  /** Lowering works character by character. */
  lemma LowerAt(u: Unicode, s: string)
    ensures forall i :: 0 <= i < |s| ==> Lower(u, s)[i] == u.lower(s[i])
  {
  }

  lemma LowerAppend(u: Unicode, a: string, b: string)
    ensures Lower(u, a + b) == Lower(u, a) + Lower(u, b)
  {
    LowerAt(u, a + b);
    LowerAt(u, a);
    LowerAt(u, b);
    assert forall i :: 0 <= i < |a + b| ==> Lower(u, a + b)[i] == (Lower(u, a) + Lower(u, b))[i];
  }

  /** `joinToString("")`: the strings of `ss` one after another. */
  function Concat(ss: seq<string>): string
  {
    if |ss| == 0 then "" else Concat(ss[..|ss| - 1]) + ss[|ss| - 1]
  }

  lemma {:induction false} ConcatAppend(a: seq<string>, b: seq<string>)
    ensures Concat(a + b) == Concat(a) + Concat(b)
  {
    if |b| == 0 {
      assert a + b == a;
    } else {
      ConcatAppend(a, b[..|b| - 1]);
      assert (a + b)[..|a + b| - 1] == a + b[..|b| - 1];
    }
  }

  /** Every character of a part occurs in the concatenation. */
  lemma {:induction false} ConcatMember(ss: seq<string>, k: nat)
    requires k < |ss|
    ensures forall c :: c in ss[k] ==> c in Concat(ss)
  {
    var n := |ss|;
    if k < n - 1 {
      ConcatMember(ss[..n - 1], k);
    }
  }

  lemma ConcatCons(s: string, ss: seq<string>)
    ensures Concat([s] + ss) == s + Concat(ss)
  {
    ConcatAppend([s], ss);
    assert [s][..0] == [];
  }

  /** `ss` with `sep` written after every element. */
  function JoinTerminated(ss: seq<string>, sep: string): string
  {
    if |ss| == 0 then "" else JoinTerminated(ss[..|ss| - 1], sep) + ss[|ss| - 1] + sep
  }

  /** `ss` with `sep` written between neighbouring elements. */
  function Join(ss: seq<string>, sep: string): string
  {
    if |ss| == 0 then "" else JoinTerminated(ss[..|ss| - 1], sep) + ss[|ss| - 1]
  }

  lemma {:induction false} JoinTerminatedEmptySeparator(ss: seq<string>)
    ensures JoinTerminated(ss, "") == Concat(ss)
  {
    if |ss| > 0 {
      JoinTerminatedEmptySeparator(ss[..|ss| - 1]);
    }
  }

  /** With an empty separator, joining is plain concatenation. */
  lemma {:induction false} JoinEmptySeparator(ss: seq<string>)
    ensures Join(ss, "") == Concat(ss)
  {
    if |ss| > 0 {
      JoinTerminatedEmptySeparator(ss[..|ss| - 1]);
    }
  }

  /** `k` copies of `s`, one after another. */
  function Repeat(s: string, k: nat): string
  {
    if k == 0 then "" else Repeat(s, k - 1) + s
  }

  lemma {:induction false} JoinTerminatedLength(ss: seq<string>, sep: string)
    ensures |JoinTerminated(ss, sep)| == |Concat(ss)| + |Repeat(sep, |ss|)|
  {
    if |ss| > 0 {
      JoinTerminatedLength(ss[..|ss| - 1], sep);
    }
  }

  /** Joining adds one separator between each pair of neighbours. */
  lemma JoinLength(ss: seq<string>, sep: string)
    requires |ss| > 0
    ensures |Join(ss, sep)| == |Concat(ss)| + |Repeat(sep, |ss| - 1)|
  {
    JoinTerminatedLength(ss[..|ss| - 1], sep);
  }

  /** `s.startsWith(p)` (which includes `s == p`). */
  predicate StartsWith(s: string, p: string)
  {
    |p| <= |s| && s[..|p|] == p
  }

  predicate StrictlyIncreasing(s: seq<nat>)
  {
    forall i, j :: 0 <= i < j < |s| ==> s[i] < s[j]
  }

  /** The indices below `n` that satisfy `p`, in ascending order. */
  function Indices(n: nat, p: nat -> bool): (r: seq<nat>)
    ensures StrictlyIncreasing(r)
    ensures forall i: nat :: i in r <==> i < n && p(i)
    ensures forall k :: 0 <= k < |r| ==> r[k] < n
  {
    if n == 0 then [] else Indices(n - 1, p) + (if p(n - 1) then [n - 1] else [])
  }

  lemma FirstIsMember(b: seq<nat>)
    ensures |b| > 0 ==> b[0] in b
  {
  }

  lemma AscendingLastIsMax(a: seq<nat>, x: nat)
    requires StrictlyIncreasing(a) && x in a
    ensures x <= a[|a| - 1]
    ensures x != a[|a| - 1] ==> x in a[..|a| - 1]
  {
    var k :| 0 <= k < |a| && a[k] == x;
    if k < |a| - 1 {
      assert a[..|a| - 1][k] == x;
    }
  }

  /** An ascending sequence without repetitions is determined by its elements. */
  lemma {:induction false} AscendingUnique(a: seq<nat>, b: seq<nat>)
    requires StrictlyIncreasing(a) && StrictlyIncreasing(b)
    requires forall x :: x in a <==> x in b
    ensures a == b
    decreases |a| + |b|
  {
    if |a| == 0 {
      FirstIsMember(b);
    } else {
      assert a[|a| - 1] in a;
      assert |b| > 0 && b[|b| - 1] in b;
      var ma, mb := a[|a| - 1], b[|b| - 1];
      AscendingLastIsMax(b, ma);
      AscendingLastIsMax(a, mb);
      assert ma == mb;
      var a', b' := a[..|a| - 1], b[..|b| - 1];
      forall x | x in a'
        ensures x in b'
      {
        var k :| 0 <= k < |a'| && a'[k] == x;
        assert a[k] == x && x < ma;
        AscendingLastIsMax(b, x);
      }
      forall x | x in b'
        ensures x in a'
      {
        var k :| 0 <= k < |b'| && b'[k] == x;
        assert b[k] == x && x < mb;
        AscendingLastIsMax(a, x);
      }
      AscendingUnique(a', b');
      assert a == a' + [ma] && b == b' + [mb];
    }
  }
}
