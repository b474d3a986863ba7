/**
  What every substring matcher computes: the least index at which a pattern
  occurs in a text, or -1 when it does not occur.
 */
module Occurrences {

  /** `pattern` occurs in `text` starting at index `s`. */
  predicate MatchesAt(text: string, pattern: string, s: int) {
    0 <= s && s + |pattern| <= |text| && text[s..s + |pattern|] == pattern
  }

  ghost predicate Occurs(text: string, pattern: string) {
    exists s :: MatchesAt(text, pattern, s)
  }

  /** `r` is what the matchers promise: the first occurrence, or -1 when there is none. */
  ghost predicate IsLeastMatch(text: string, pattern: string, r: int) {
    if r == -1 then !Occurs(text, pattern)
    else MatchesAt(text, pattern, r) && forall s :: 0 <= s < r ==> !MatchesAt(text, pattern, s)
  }

  /** The character-by-character reading of `MatchesAt`. */
  lemma MatchesAtElementwise(text: string, pattern: string, s: int)
    ensures MatchesAt(text, pattern, s) <==>
      && 0 <= s && s + |pattern| <= |text|
      && forall t :: 0 <= t < |pattern| ==> text[s + t] == pattern[t]
  {
    if 0 <= s && s + |pattern| <= |text| {
      if forall t :: 0 <= t < |pattern| ==> text[s + t] == pattern[t] {
        assert forall t :: 0 <= t < |pattern| ==> text[s..s + |pattern|][t] == pattern[t];
      }
    }
  }

  /** A scan that stops at its first match has found the least one. */
  lemma FirstMatchFound(text: string, pattern: string, i: int)
    requires MatchesAt(text, pattern, i)
    requires forall k :: 0 <= k < i ==> !MatchesAt(text, pattern, k)
    ensures IsLeastMatch(text, pattern, i)
  {
  }

  /** A scan that runs past the last window without a match has found none. */
  lemma ScanExhausted(text: string, pattern: string, i: int)
    requires i + |pattern| > |text|
    requires forall k :: 0 <= k < i ==> !MatchesAt(text, pattern, k)
    ensures IsLeastMatch(text, pattern, -1)
  {
    assert forall k :: !MatchesAt(text, pattern, k);
  }

  /** One mismatching character rules out an occurrence. */
  lemma MismatchRulesOut(text: string, pattern: string, s: int, t: int)
    requires 0 <= t < |pattern| && 0 <= s + t < |text| && text[s + t] != pattern[t]
    ensures !MatchesAt(text, pattern, s)
  {
    MatchesAtElementwise(text, pattern, s);
  }

  /** Reference search: try every start from `from` onwards, in order. */
  function FirstOccurrenceFrom(text: string, pattern: string, from: nat): (r: int)
    ensures r == -1 || (from <= r && MatchesAt(text, pattern, r))
    ensures forall s :: from <= s && (r == -1 || s < r) ==> !MatchesAt(text, pattern, s)
    decreases |text| - from
  {
    if from + |pattern| > |text| then -1
    else if MatchesAt(text, pattern, from) then from
    else FirstOccurrenceFrom(text, pattern, from + 1)
  }

  function FirstOccurrence(text: string, pattern: string): (r: int)
    ensures IsLeastMatch(text, pattern, r)
  {
    FirstOccurrenceFrom(text, pattern, 0)
  }

  /** The matchers' promise determines the result: any two results meeting it are equal. */
  lemma LeastMatchIsUnique(text: string, pattern: string, r1: int, r2: int)
    requires IsLeastMatch(text, pattern, r1) && IsLeastMatch(text, pattern, r2)
    ensures r1 == r2
  {
  }

  lemma LeastMatchIsFirstOccurrence(text: string, pattern: string, r: int)
    requires IsLeastMatch(text, pattern, r)
    ensures r == FirstOccurrence(text, pattern)
  {
    LeastMatchIsUnique(text, pattern, r, FirstOccurrence(text, pattern));
  }
}
