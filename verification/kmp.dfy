/**
  Knuth-Morris-Pratt search: the failure function (LPS table) of the pattern,
  then a left-to-right scan of the text that never moves backwards.
 */
module Kmp {
  import opened Occurrences

  /** `pattern[..k]` is a proper prefix of `pattern[..len]` that is also a suffix of it. */
  predicate IsBorder(pattern: string, len: int, k: int) {
    && 0 <= k < len <= |pattern|
    && forall t :: 0 <= t < k ==> pattern[t] == pattern[len - k + t]
  }

  /** No border of `pattern[..len]` is longer than `bound`. */
  ghost predicate NoBorderLongerThan(pattern: string, len: int, bound: int) {
    forall k :: bound < k ==> !IsBorder(pattern, len, k)
  }

  /** `v` is the length of the longest proper prefix of `pattern[..len]` that is also its suffix. */
  ghost predicate IsLongestBorder(pattern: string, len: int, v: int) {
    IsBorder(pattern, len, v) && NoBorderLongerThan(pattern, len, v)
  }

  lemma BorderShrink(pattern: string, len: int, k: nat)
    requires IsBorder(pattern, len + 1, k + 1)
    ensures IsBorder(pattern, len, k)
  {
  }

  /** A border of `pattern[..len]` shorter than another border is a border of that border. */
  lemma BorderOfBorder(pattern: string, len: int, k: int, k': int)
    requires IsBorder(pattern, len, k) && IsBorder(pattern, len, k') && k' < k
    ensures IsBorder(pattern, k, k')
  {
    forall t | 0 <= t < k'
      ensures pattern[t] == pattern[k - k' + t]
    {
      assert pattern[t] == pattern[len - k' + t];
      assert pattern[k - k' + t] == pattern[len - k + (k - k' + t)];
    }
  }

  /** A border of a border of `pattern[..len]` is a border of `pattern[..len]`. */
  lemma BorderTransitive(pattern: string, len: int, k: int, k': int)
    requires IsBorder(pattern, len, k) && IsBorder(pattern, k, k')
    ensures IsBorder(pattern, len, k')
  {
    forall t | 0 <= t < k'
      ensures pattern[t] == pattern[len - k' + t]
    {
      assert pattern[t] == pattern[k - k' + t];
      assert pattern[k - k' + t] == pattern[len - k + (k - k' + t)];
    }
  }

  /**
    No border of `pattern[..len + 1]` is longer than one more than the longest
    border of `pattern[..len]`.
   */
  lemma BorderGrowsByAtMostOne(pattern: string, len: int, v: int)
    requires IsLongestBorder(pattern, len, v)
    ensures NoBorderLongerThan(pattern, len + 1, v + 1)
  {
    var longer := len + 1;
    forall k | v + 1 < k && IsBorder(pattern, longer, k)
      ensures false
    {
      BorderShrink(pattern, len, k - 1);
    }
  }

  /**
    `compute_lps`: entry `i` is the length of the longest proper prefix of
    `pattern[..i + 1]` that is also a suffix of it, so `lps[0] == 0` and
    `lps[i] <= i`.
   */
  method ComputeLps(pattern: string) returns (lps: seq<int>)
    ensures |lps| == |pattern|
    ensures |pattern| > 0 ==> lps[0] == 0
    ensures forall i :: 0 <= i < |pattern| ==> 0 <= lps[i] <= i
    ensures forall i :: 0 <= i < |pattern| ==> IsLongestBorder(pattern, i + 1, lps[i])
  {
    lps := seq(|pattern|, _ => 0);
    var length := 0;
    var i := 1;
    while i < |pattern|
      invariant |lps| == |pattern|
      invariant 1 <= i && (i <= |pattern| || |pattern| == 0)
      invariant |pattern| > 0 ==> IsBorder(pattern, i, length)
      invariant NoBorderLongerThan(pattern, i + 1, length + 1)
      invariant forall t :: 0 <= t < i && t < |pattern| ==> IsLongestBorder(pattern, t + 1, lps[t])
      decreases |pattern| - i, length
    {
      if pattern[i] == pattern[length] {
        length := length + 1;
        lps := lps[i := length];
        assert IsLongestBorder(pattern, i + 1, length);
        BorderGrowsByAtMostOne(pattern, i + 1, length);
        i := i + 1;
      } else if length != 0 {
        var fallback := lps[length - 1];
        var next := i + 1;
        assert !IsBorder(pattern, next, length + 1);
        forall k | fallback + 1 < k <= length
          ensures !IsBorder(pattern, next, k)
        {
          if IsBorder(pattern, next, k) {
            BorderShrink(pattern, i, k - 1);
            BorderOfBorder(pattern, i, length, k - 1);
          }
        }
        BorderTransitive(pattern, i, length, fallback);
        length := fallback;
      } else {
        assert !IsBorder(pattern, i + 1, 1);
        lps := lps[i := 0];
        assert IsLongestBorder(pattern, i + 1, 0);
        BorderGrowsByAtMostOne(pattern, i + 1, 0);
        i := i + 1;
      }
    }
  }

  /**
    After a mismatch between `text[i]` and `pattern[j]` with `pattern[..j]`
    ending at `i`, falling back to the longest border `v` of `pattern[..j]`
    skips no start at which the pattern occurs.
   */
  lemma FallbackSkipsNoMatch(text: string, pattern: string, i: int, j: int, v: int)
    requires 0 < j < |pattern| && j <= i < |text|
    requires forall t :: 0 <= t < j ==> text[i - j + t] == pattern[t]
    requires text[i] != pattern[j]
    requires IsLongestBorder(pattern, j, v)
    ensures forall s :: i - j <= s < i - v ==> !MatchesAt(text, pattern, s)
  {
    forall s | i - j <= s < i - v && MatchesAt(text, pattern, s)
      ensures false
    {
      MatchesAtElementwise(text, pattern, s);
      var k := i - s;
      if k != j {
        forall t | 0 <= t < k
          ensures pattern[t] == pattern[j - k + t]
        {
          assert text[s + t] == pattern[t];
          assert text[i - j + (j - k + t)] == pattern[j - k + t];
        }
        assert IsBorder(pattern, j, k);
      }
    }
  }

  /**
    `kmp_search`: the first index at which `pattern` occurs in `main_string`,
    or -1, in particular -1 whenever the pattern is longer than the text.
   */
  method KmpSearch(text: string, pattern: string) returns (r: int)
    requires |pattern| >= 1
    ensures IsLeastMatch(text, pattern, r)
    ensures r >= 0 ==> r <= |text| - |pattern| && text[r..r + |pattern|] == pattern
    ensures |pattern| > |text| ==> r == -1
  {
    var m := |pattern|;
    var n := |text|;
    var lps := ComputeLps(pattern);
    var i, j := 0, 0;
    while i < n
      invariant 0 <= j < m && j <= i <= n
      invariant forall t :: 0 <= t < j ==> text[i - j + t] == pattern[t]
      invariant forall s :: 0 <= s < i - j ==> !MatchesAt(text, pattern, s)
      decreases n - i, j
    {
      if pattern[j] == text[i] {
        i, j := i + 1, j + 1;
      } else if j != 0 {
        FallbackSkipsNoMatch(text, pattern, i, j, lps[j - 1]);
        BorderTransitiveOnText(text, pattern, i, j, lps[j - 1]);
        j := lps[j - 1];
      } else {
        MatchesAtElementwise(text, pattern, i);
        i := i + 1;
      }
      if j == m {
        MatchesAtElementwise(text, pattern, i - j);
        FirstMatchFound(text, pattern, i - j);
        return i - j;
      }
    }
    ScanExhausted(text, pattern, i - j);
    return -1;
  }

  /** Falling back to a border `v` of `pattern[..j]` keeps `pattern[..v]` ending at `i` in the text. */
  lemma BorderTransitiveOnText(text: string, pattern: string, i: int, j: int, v: int)
    requires 0 < j <= i <= |text| && j <= |pattern|
    requires forall t :: 0 <= t < j ==> text[i - j + t] == pattern[t]
    requires IsBorder(pattern, j, v)
    ensures forall t :: 0 <= t < v ==> text[i - v + t] == pattern[t]
  {
    forall t | 0 <= t < v
      ensures text[i - v + t] == pattern[t]
    {
      assert text[i - j + (j - v + t)] == pattern[j - v + t];
    }
  }
}
