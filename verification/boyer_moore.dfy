/**
  Boyer-Moore-Horspool search: a table of bad-character shifts keyed on the
  text character aligned with the pattern's last position, and a right-to-left
  comparison of each window.
 */
module BoyerMoore {
  import opened Occurrences

  /** Index of the last occurrence of `c` in `s`, or -1 when `c` does not occur in `s`. */
  function LastIndex(s: string, c: char): (r: int)
    ensures -1 <= r < |s|
    ensures r >= 0 ==> s[r] == c
    ensures forall k :: r < k < |s| ==> s[k] != c
  {
    if |s| == 0 then -1
    else if s[|s| - 1] == c then |s| - 1
    else LastIndex(s[..|s| - 1], c)
  }

  /**
    The table once the construction loop has visited the first `count`
    characters of `pattern`; a later occurrence overwrites an earlier one.
   */
  function TableAfter(pattern: string, count: nat): (table: map<char, int>)
    requires count < |pattern|
    ensures forall c :: c in table <==> c in pattern[..count]
    ensures forall c :: c in table ==> table[c] == |pattern| - 1 - LastIndex(pattern[..count], c)
  {
    if count == 0 then map[]
    else
      var previous := TableAfter(pattern, count - 1);
      assert pattern[..count] == pattern[..count - 1] + [pattern[count - 1]];
      assert pattern[..count][..count - 1] == pattern[..count - 1];
      previous[pattern[count - 1] := |pattern| - (count - 1) - 1]
  }

  /**
    `build_shift_table`: the construction loop, then `setdefault` for the last
    character. Its keys are exactly the pattern's characters, and every shift
    lies in `[1, m]`.
   */
  function BuildShiftTable(pattern: string): (table: map<char, int>)
    requires |pattern| >= 1
    ensures forall c :: c in table <==> c in pattern
    ensures forall c :: c in table ==> 1 <= table[c] <= |pattern|
  {
    var m := |pattern|;
    var prefix := pattern[..m - 1];
    var visited := TableAfter(pattern, m - 1);
    assert pattern == prefix + [pattern[m - 1]];
    assert forall c :: c in visited ==> 1 <= visited[c] <= m - 1 by {
      forall c | c in visited
        ensures 1 <= visited[c] <= m - 1
      {
        var k :| 0 <= k < |prefix| && prefix[k] == c;
        assert LastIndex(prefix, c) >= k;
      }
    }
    var last := pattern[m - 1];
    if last in visited then visited else visited[last := m]
  }

  /**
    A character of the pattern before its last position maps to its distance
    from the last position, measured from its last occurrence before it.
   */
  lemma ShiftTableEntry(pattern: string, c: char)
    requires |pattern| >= 1 && c in pattern[..|pattern| - 1]
    ensures c in BuildShiftTable(pattern)
    ensures BuildShiftTable(pattern)[c] == |pattern| - 1 - LastIndex(pattern[..|pattern| - 1], c)
  {
  }

  lemma ShiftTableDistances(pattern: string)
    requires |pattern| >= 1
    ensures forall c :: c in pattern[..|pattern| - 1] ==>
      c in BuildShiftTable(pattern) &&
      BuildShiftTable(pattern)[c] == |pattern| - 1 - LastIndex(pattern[..|pattern| - 1], c)
  {
    forall c | c in pattern[..|pattern| - 1] {
      ShiftTableEntry(pattern, c);
    }
  }

  /**
    The shift table's contents: its keys are exactly the pattern's characters;
    every character of the pattern but the last maps to its distance from the
    last position (its last such occurrence wins); the last character maps to
    the pattern length only when it does not occur earlier; every shift lies
    in `[1, m]`.
   */
  lemma ShiftTableContents(pattern: string)
    requires |pattern| >= 1
    ensures var table := BuildShiftTable(pattern);
      && (forall c :: c in table <==> c in pattern)
      && (forall c :: c in pattern[..|pattern| - 1] ==>
            table[c] == |pattern| - 1 - LastIndex(pattern[..|pattern| - 1], c))
      && (pattern[|pattern| - 1] !in pattern[..|pattern| - 1] ==> table[pattern[|pattern| - 1]] == |pattern|)
      && (forall c :: c in table ==> 1 <= table[c] <= |pattern|)
  {
    ShiftTableDistances(pattern);
  }

  /**
    For "ABAB" the loop records A at distance 1 and B at distance 2, and
    `setdefault` leaves B alone because it already occurs before the end.
   */
  lemma ShiftTableExample()
    ensures BuildShiftTable("ABAB") == map['A' := 1, 'B' := 2]
  {
    ExampleLoopTable();
    assert "ABAB"[3] == 'B';
  }

  /** The construction loop on "ABAB", one visited character at a time. */
  lemma ExampleLoopTable()
    ensures TableAfter("ABAB", 3) == map['A' := 1, 'B' := 2]
  {
    var pattern := "ABAB";
    assert pattern[..0] == [];
    assert TableAfter(pattern, 1) == map['A' := 3];
    assert TableAfter(pattern, 2) == map['A' := 3, 'B' := 2];
  }

  /** The lookup with a default: a character absent from the table shifts by `m`. */
  function Shift(table: map<char, int>, c: char, m: int): (s: int)
    ensures m >= 1 && (forall x :: x in table ==> 1 <= table[x] <= m) ==> 1 <= s <= m
  {
    if c in table then table[c] else m
  }

  /** The shift for `c` is within `[1, m]`, and is at most `d` when `c` sits `d` places before the end. */
  lemma ShiftBounds(pattern: string, c: char, d: int)
    requires |pattern| >= 1
    ensures 1 <= Shift(BuildShiftTable(pattern), c, |pattern|) <= |pattern|
    ensures 0 < d < |pattern| && pattern[|pattern| - 1 - d] == c ==>
      Shift(BuildShiftTable(pattern), c, |pattern|) <= d
  {
    if 0 < d < |pattern| && pattern[|pattern| - 1 - d] == c {
      ShiftAtMostDistance(pattern, c, d);
    }
  }

  lemma ShiftAtMostDistance(pattern: string, c: char, d: int)
    requires 0 < d < |pattern| && pattern[|pattern| - 1 - d] == c
    ensures Shift(BuildShiftTable(pattern), c, |pattern|) <= d
  {
    var m := |pattern|;
    var prefix := pattern[..m - 1];
    assert prefix[m - 1 - d] == c;
    ShiftTableEntry(pattern, c);
    assert LastIndex(prefix, c) >= m - 1 - d;
  }

  /** The window at `k`, fewer than `s` places after `i`, would align the text's character `c` with a different one of the pattern. */
  lemma ShiftSkipsWindow(text: string, pattern: string, i: nat, k: int)
    requires |pattern| >= 1 && i + |pattern| <= |text|
    requires i < k < i + Shift(BuildShiftTable(pattern), text[i + |pattern| - 1], |pattern|)
    ensures !MatchesAt(text, pattern, k)
  {
    var m, c, d := |pattern|, text[i + |pattern| - 1], k - i;
    ShiftBounds(pattern, c, d);
    assert pattern[m - 1 - d] != c;
    assert k + (m - 1 - d) == i + m - 1;
    MismatchRulesOut(text, pattern, k, m - 1 - d);
  }

  /**
    The shift taken after examining the window at `i` is at least 1 and at
    most the pattern length, and it skips no start at which the pattern occurs.
   */
  lemma ShiftIsSafe(text: string, pattern: string, i: nat)
    requires |pattern| >= 1 && i + |pattern| <= |text|
    ensures var s := Shift(BuildShiftTable(pattern), text[i + |pattern| - 1], |pattern|);
      && 1 <= s <= |pattern|
      && forall k :: i < k < i + s ==> !MatchesAt(text, pattern, k)
  {
    var m := |pattern|;
    var s := Shift(BuildShiftTable(pattern), text[i + m - 1], m);
    ShiftBounds(pattern, text[i + m - 1], 0);
    forall k | i < k < i + s
      ensures !MatchesAt(text, pattern, k)
    {
      ShiftSkipsWindow(text, pattern, i, k);
    }
  }

  /**
    The inner loop of `boyer_moore_search`: compare the window at `i` with the
    pattern from right to left. The result is -1 exactly when the window
    matches; otherwise it is the rightmost mismatching position.
   */
  method CompareFromRight(text: string, pattern: string, i: int) returns (j: int)
    requires 0 <= i && i + |pattern| <= |text|
    ensures -1 <= j < |pattern|
    ensures j == -1 <==> MatchesAt(text, pattern, i)
    ensures j >= 0 ==> text[i + j] != pattern[j]
    ensures forall t :: j < t < |pattern| ==> text[i + t] == pattern[t]
  {
    j := |pattern| - 1;
    while j >= 0 && text[i + j] == pattern[j]
      invariant -1 <= j < |pattern|
      invariant forall t :: j < t < |pattern| ==> text[i + t] == pattern[t]
    {
      j := j - 1;
    }
    MatchesAtElementwise(text, pattern, i);
  }

  /**
    `boyer_moore_search`: the first index at which `pattern` occurs in `text`,
    or -1, in particular -1 whenever the pattern is longer than the text.
   */
  method BoyerMooreSearch(text: string, pattern: string) returns (r: int)
    requires |pattern| >= 1
    ensures IsLeastMatch(text, pattern, r)
    ensures r >= 0 ==> r <= |text| - |pattern| && text[r..r + |pattern|] == pattern
    ensures |pattern| > |text| ==> r == -1
  {
    var table := BuildShiftTable(pattern);
    var m := |pattern|;
    var i := 0;
    while i <= |text| - m
      invariant 0 <= i <= |text|
      invariant forall k :: 0 <= k < i ==> !MatchesAt(text, pattern, k)
      decreases |text| - i
    {
      var j := CompareFromRight(text, pattern, i);
      if j < 0 {
        FirstMatchFound(text, pattern, i);
        return i;
      }
      ShiftIsSafe(text, pattern, i);
      i := i + Shift(table, text[i + m - 1], m);
    }
    ScanExhausted(text, pattern, i);
    return -1;
  }
}
