/**
  Rabin-Karp search with a rolling polynomial hash of radix 256 modulo the
  prime 101, confirming every hash hit by comparing the window itself.
 */
module RabinKarp {
  import opened Occurrences

  const Radix: int := 256
  const Modulus: int := 101

  /** Python's `ord`: the code point of a character. */
  function Ord(c: char): int {
    c as int
  }

  function Pow(base: int, exp: nat): int {
    if exp == 0 then 1 else base * Pow(base, exp - 1)
  }

  /** The hash polynomial as a positional sum: the sum of `Ord(s[k]) * 256^(|s| - 1 - k)`. */
  function PositionalValue(s: string): int {
    if |s| == 0 then 0 else Ord(s[0]) * Pow(Radix, |s| - 1) + PositionalValue(s[1..])
  }

  /** The hash of a window computed directly from its characters. */
  function WindowHash(s: string): int {
    PositionalValue(s) % Modulus
  }

  /** The same polynomial accumulated left to right, as the first loop of `rabin_karp_search` does. */
  function HornerValue(s: string): int {
    if |s| == 0 then 0 else HornerValue(s[..|s| - 1]) * Radix + Ord(s[|s| - 1])
  }

  /** Appending a character multiplies the positional value by the radix and adds the character. */
  lemma {:induction false} PositionalAppend(s: string, c: char)
    ensures PositionalValue(s + [c]) == PositionalValue(s) * Radix + Ord(c)
    decreases |s|
  {
    if |s| == 0 {
      assert s + [c] == [c];
      assert [c][1..] == [];
    } else {
      var rest := s[1..];
      assert (s + [c])[1..] == rest + [c];
      PositionalAppend(rest, c);
      var p := Pow(Radix, |s| - 1);
      assert Pow(Radix, |s|) == Radix * p;
      calc {
        PositionalValue(s + [c]);
        Ord(s[0]) * (Radix * p) + PositionalValue(rest) * Radix + Ord(c);
        (Ord(s[0]) * p + PositionalValue(rest)) * Radix + Ord(c);
      }
    }
  }

  /** Horner's left-to-right accumulation computes the positional sum. */
  lemma {:induction false} HornerIsPositional(s: string)
    ensures HornerValue(s) == PositionalValue(s)
    decreases |s|
  {
    if |s| > 0 {
      var init := s[..|s| - 1];
      HornerIsPositional(init);
      PositionalAppend(init, s[|s| - 1]);
      assert init + [s[|s| - 1]] == s;
    }
  }

  /**
    One step of `rabin_karp_search`'s first loop, which reduces modulo 101 after every
    character, keeps the running value equal to the unreduced Horner value
    modulo 101.
   */
  lemma HashAppend(s: string, c: char, x: int)
    requires x == HornerValue(s) % Modulus
    ensures (Radix * x + Ord(c)) % Modulus == HornerValue(s + [c]) % Modulus
  {
    assert (s + [c])[..|s|] == s;
    StepArithmetic(HornerValue(s), x, Ord(c));
  }

  /** Reducing before a Horner step gives the same remainder as reducing after it. */
  lemma StepArithmetic(v: int, x: int, c: int)
    requires x == v % Modulus
    ensures (Radix * x + c) % Modulus == (v * Radix + c) % Modulus
  {
    var q := v / Modulus;
    assert v == Modulus * q + x;
    assert v * Radix + c == (Radix * x + c) + Modulus * (Radix * q);
    ModuloIgnoresMultiples(Radix * x + c, Radix * q);
  }

  lemma ModuloIgnoresMultiples(x: int, k: int)
    ensures (x + Modulus * k) % Modulus == x % Modulus
  {
  }

  /** The arithmetic of one roll, with products named so that only linear steps remain. */
  lemma RollArithmetic(v: int, d: int, o: int, rest: int, c: int, t: int, h: int)
    requires v == o * d + rest
    requires t == v % Modulus && h == d % Modulus
    ensures ((t - o * h) * Radix + c) % Modulus == (rest * Radix + c) % Modulus
  {
    var a, b := v / Modulus, d / Modulus;
    assert d == Modulus * b + h;
    assert o * d == Modulus * (o * b) + o * h;
    var x, y := o * h, o * b;
    assert rest == Modulus * (a - y) + t - x;
    assert rest * Radix + c == ((t - x) * Radix + c) + Modulus * ((a - y) * Radix);
    ModuloIgnoresMultiples((t - x) * Radix + c, (a - y) * Radix);
  }

  /**
    The rolling update: removing the leading character with `h = 256^(m-1) mod 101`,
    shifting by the radix and adding the next character gives the direct hash
    of the next window.
   */
  lemma RollingHashIsDirect(window: string, c: char, t: int, h: int)
    requires |window| >= 1
    requires t == WindowHash(window)
    requires h == Pow(Radix, |window| - 1) % Modulus
    ensures ((t - Ord(window[0]) * h) * Radix + Ord(c)) % Modulus == WindowHash(window[1..] + [c])
  {
    var rest := window[1..];
    PositionalAppend(rest, c);
    RollArithmetic(PositionalValue(window), Pow(Radix, |window| - 1), Ord(window[0]),
      PositionalValue(rest), Ord(c), t, h);
  }

  /**
    `rabin_karp_search`'s update from the window at `s` to the window at `s + 1`,
    including its correction of a negative remainder, which never fires
    because a remainder modulo a positive number is never negative.
   */
  method RollWindow(text: string, s: nat, m: nat, t: int, h: int) returns (next: int)
    requires 1 <= m && s + m < |text|
    requires t == WindowHash(text[s..s + m]) && h == Pow(Radix, m - 1) % Modulus
    ensures 0 <= next < Modulus && next == WindowHash(text[s + 1..s + 1 + m])
  {
    RollingHashIsDirect(text[s..s + m], text[s + m], t, h);
    assert text[s..s + m][1..] + [text[s + m]] == text[s + 1..s + 1 + m];
    next := (t - Ord(text[s]) * h) * Radix + Ord(text[s + m]);
    next := next % Modulus;
    if next < 0 {
      assert false;
      next := next + Modulus;
    }
  }

  /**
    The first loop of `rabin_karp_search`: the hashes of the pattern and of
    the text's first window, reduced modulo 101 after every character.
   */
  method FirstHashes(text: string, pattern: string) returns (p: int, t: int)
    requires |pattern| <= |text|
    ensures p == HornerValue(pattern) % Modulus
    ensures t == HornerValue(text[..|pattern|]) % Modulus
  {
    var m := |pattern|;
    p, t := 0, 0;
    for i := 0 to m
      invariant p == HornerValue(pattern[..i]) % Modulus
      invariant t == HornerValue(text[..i]) % Modulus
    {
      HashAppend(pattern[..i], pattern[i], p);
      HashAppend(text[..i], text[i], t);
      assert pattern[..i] + [pattern[i]] == pattern[..i + 1];
      assert text[..i] + [text[i]] == text[..i + 1];
      p := (Radix * p + Ord(pattern[i])) % Modulus;
      t := (Radix * t + Ord(text[i])) % Modulus;
    }
    assert pattern[..m] == pattern;
  }

  /**
    `rabin_karp_search`: the first index at which `pattern` occurs in `text`,
    or -1. A hash hit is returned only after the window equals the pattern,
    so a collision never yields a false positive.
   */
  method RabinKarpSearch(text: string, pattern: string) returns (r: int)
    requires 1 <= |pattern| <= |text|
    ensures IsLeastMatch(text, pattern, r)
    ensures r >= 0 ==> r <= |text| - |pattern| && text[r..r + |pattern|] == pattern
  {
    var n, m := |text|, |pattern|;
    var h := Pow(Radix, m - 1) % Modulus;
    var p, t := FirstHashes(text, pattern);
    HornerIsPositional(pattern);
    HornerIsPositional(text[..m]);
    assert text[..m] == text[0..m];
    for s := 0 to n - m + 1
      invariant 0 <= p < Modulus && p == WindowHash(pattern)
      invariant s <= n - m ==> 0 <= t < Modulus && t == WindowHash(text[s..s + m])
      invariant forall k :: 0 <= k < s ==> !MatchesAt(text, pattern, k)
    {
      if p == t {
        if text[s..s + m] == pattern {
          FirstMatchFound(text, pattern, s);
          return s;
        }
      }
      if s < n - m {
        t := RollWindow(text, s, m, t, h);
      }
    }
    ScanExhausted(text, pattern, n - m + 1);
    return -1;
  }
}
