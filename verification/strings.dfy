/** The .NET string primitives the tag helpers are built on, with ordinal comparison:
    `String.IndexOf`, `String.Replace` and a character count used to state their effect. */
module Strings {

  /** `pat` occurs in `s` starting at index `k`. */
  predicate MatchAt(s: string, pat: string, k: int)
  {
    0 <= k && k + |pat| <= |s| && forall j :: 0 <= j < |pat| ==> s[k + j] == pat[j]
  }

  /** `pat` occurs somewhere in `s`. */
  ghost predicate Occurs(s: string, pat: string)
  {
    exists k :: MatchAt(s, pat, k)
  }

  /** `s.IndexOf(pat, from)`: the first index at or after `from` where `pat` occurs, or -1. */
  function IndexOf(s: string, pat: string, from: nat): (r: int)
    requires from <= |s|
    ensures r == -1 || (from <= r && MatchAt(s, pat, r))
    ensures forall k :: from <= k && (r == -1 || k < r) ==> !MatchAt(s, pat, k)
    decreases |s| - from
  {
    if |s| < from + |pat| then -1
    else if MatchAt(s, pat, from) then from
    else IndexOf(s, pat, from + 1)
  }

  /** A one-character pattern occurs at `k` exactly when that character is at `k`. */
  lemma MatchAtChar(s: string, c: char, k: int)
    ensures MatchAt(s, [c], k) <==> 0 <= k < |s| && s[k] == c
  {
    if 0 <= k < |s| && s[k] == c {
      forall j | 0 <= j < |[c]| ensures s[k + j] == [c][j] {
        assert j == 0;
      }
    }
    if MatchAt(s, [c], k) {
      assert s[k + 0] == [c][0];
    }
  }

  /** The number of occurrences of `c` in `s`. */
  function CountChar(s: string, c: char): (n: nat)
    ensures n <= |s|
    ensures n == 0 <==> forall k :: 0 <= k < |s| ==> s[k] != c
  {
    if s == [] then 0
    else
      var rest := CountChar(s[1..], c);
      assert rest == 0 <==> forall k :: 0 <= k < |s| - 1 ==> s[1..][k] != c;
      (if s[0] == c then 1 else 0) + rest
  }

  /** `s.Replace(pat, rep)`: every occurrence of `pat`, found left to right without overlap,
      becomes `rep`. */
  function ReplaceAll(s: string, pat: string, rep: string): string
    requires pat != []
    decreases |s|
  {
    if |s| < |pat| then s
    else if MatchAt(s, pat, 0) then rep + ReplaceAll(s[|pat|..], pat, rep)
    else [s[0]] + ReplaceAll(s[1..], pat, rep)
  }

  /** An occurrence in the tail of `s` is an occurrence in `s`, one index later. */
  lemma MatchAtShift(s: string, pat: string, k: int)
    requires s != [] && MatchAt(s[1..], pat, k)
    ensures MatchAt(s, pat, k + 1)
  {
    forall j | 0 <= j < |pat| ensures s[k + 1 + j] == pat[j] {
      assert s[1..][k + j] == pat[j];
    }
  }

  /** Text in which `pat` never occurs is left as it is by `Replace`. */
  lemma {:induction false} ReplaceAllAbsent(s: string, pat: string, rep: string)
    requires pat != []
    requires !Occurs(s, pat)
    ensures ReplaceAll(s, pat, rep) == s
    decreases |s|
  {
    if |pat| <= |s| {
      assert !MatchAt(s, pat, 0);
      forall k | MatchAt(s[1..], pat, k) ensures MatchAt(s, pat, k + 1) {
        MatchAtShift(s, pat, k);
      }
      ReplaceAllAbsent(s[1..], pat, rep);
    }
  }

  /** Replacing one character by a two-character string lengthens the text by one per
      occurrence of that character. */
  lemma {:induction false} ReplaceCharLength(s: string, c: char, rep: string)
    requires |rep| == 2
    ensures |ReplaceAll(s, [c], rep)| == |s| + CountChar(s, c)
    decreases |s|
  {
    if s != [] {
      MatchAtChar(s, c, 0);
      ReplaceCharLength(s[1..], c, rep);
    }
  }
}
