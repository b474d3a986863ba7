/**
  The three matchers compute the same thing: the first occurrence of the
  pattern, or -1.
 */
module SearchAgreement {
  import opened Occurrences
  import BoyerMoore
  import Kmp
  import RabinKarp

  /** Run all three matchers on one input: they return the same index. */
  method SearchAll(text: string, pattern: string) returns (bm: int, kmp: int, rk: int)
    requires 1 <= |pattern| <= |text|
    ensures bm == kmp == rk
    ensures IsLeastMatch(text, pattern, bm)
  {
    bm := BoyerMoore.BoyerMooreSearch(text, pattern);
    kmp := Kmp.KmpSearch(text, pattern);
    rk := RabinKarp.RabinKarpSearch(text, pattern);
    LeastMatchIsUnique(text, pattern, bm, kmp);
    LeastMatchIsUnique(text, pattern, bm, rk);
  }

  /** Boyer-Moore and KMP also agree when the pattern is longer than the text. */
  method SearchLongPattern(text: string, pattern: string) returns (bm: int, kmp: int)
    requires |pattern| > |text|
    ensures bm == kmp == -1
  {
    bm := BoyerMoore.BoyerMooreSearch(text, pattern);
    kmp := Kmp.KmpSearch(text, pattern);
  }

  /** The worked example: the pattern first occurs at index 10. */
  lemma ExampleFound()
    ensures FirstOccurrence("ABABDABACDABABCABAB", "ABABCABAB") == 10
  {
    var text, pattern := "ABABDABACDABABCABAB", "ABABCABAB";
    assert MatchesAt(text, pattern, 10);
    // every earlier window, with the offset of its first mismatch
    forall k | 0 <= k < 10
      ensures !MatchesAt(text, pattern, k)
    {
      var offset := if k == 0 then 4 else if k == 2 then 2 else if k == 5 then 3 else if k == 7 then 1 else 0;
      MismatchRulesOut(text, pattern, k, offset);
    }
    FirstMatchFound(text, pattern, 10);
    LeastMatchIsFirstOccurrence(text, pattern, 10);
  }

  /** A pattern whose first character is absent from the text is not found. */
  lemma ExampleNotFound()
    ensures FirstOccurrence("hello world", "xyz") == -1
  {
    var text, pattern := "hello world", "xyz";
    forall s | 0 <= s <= |text| - |pattern|
      ensures !MatchesAt(text, pattern, s)
    {
      MismatchRulesOut(text, pattern, s, 0);
    }
    LeastMatchIsFirstOccurrence(text, pattern, -1);
  }

  /** On the worked example all three matchers return 10. */
  method SearchExampleFound() returns (bm: int, kmp: int, rk: int)
    ensures bm == 10 && kmp == 10 && rk == 10
  {
    bm, kmp, rk := SearchAll("ABABDABACDABABCABAB", "ABABCABAB");
    ExampleFound();
    LeastMatchIsFirstOccurrence("ABABDABACDABABCABAB", "ABABCABAB", bm);
  }

  /** On the second example all three matchers return -1. */
  method SearchExampleNotFound() returns (bm: int, kmp: int, rk: int)
    ensures bm == -1 && kmp == -1 && rk == -1
  {
    bm, kmp, rk := SearchAll("hello world", "xyz");
    ExampleNotFound();
    LeastMatchIsFirstOccurrence("hello world", "xyz", bm);
  }
}
