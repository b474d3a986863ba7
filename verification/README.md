# Substring search, chained hash table and upper-bound binary search in Dafny

This project models three small, independent Python algorithm scripts and proves properties about them:

- **Substring search** (`task_3.py`). It has three matchers. Each returns the index of the first occurrence of a pattern in a text, or `-1`:
  - Boyer–Moore–Horspool, with its bad-character shift table;
  - Knuth–Morris–Pratt, with its longest-prefix-suffix (LPS) failure table;
  - Rabin–Karp, with a rolling polynomial hash of radix 256 modulo 101 and a check of every hash hit.
- **Separate-chaining hash table** (`task_1.py`). It has a fixed number of buckets of key/value pairs, with `insert`, `get` and `delete`.
- **Binary search** (`task_2.py`). It returns the number of halving steps and the smallest element that is at least the target (the "upper bound"), or `None`.

Files:

| file | module | models |
|---|---|---|
| `wrappers.dfy` | `Wrappers` | `Option`, for Python's `None` |
| `occurrences.dfy` | `Occurrences` | what a matcher promises: `MatchesAt`, `IsLeastMatch` and the reference search `FirstOccurrence` |
| `boyer_moore.dfy` | `BoyerMoore` | `build_shift_table` and `boyer_moore_search` |
| `kmp.dfy` | `Kmp` | `compute_lps` and `kmp_search` |
| `rabin_karp.dfy` | `RabinKarp` | `rabin_karp_search`, and the direct and rolling hashes |
| `search_agreement.dfy` | `SearchAgreement` | agreement of the three matchers, and the worked examples |
| `hash_table.dfy` | `ChainedHashTable` | class `HashTable` |
| `binary_search.dfy` | `UpperBoundSearch` | `binary_search` |

Modelling choices:

- Text and pattern are `string` (`seq<char>`). Python's `ord(c)` is `c as int`.
- The matchers are `while`/`for` loops that mirror the Python loops. Their loop invariants are proved.
- The matchers return `-1` for "not found", as the code does. `IsLeastMatch(text, pattern, r)` states the promise: either `r` is the least start at which `pattern` occurs, or `r == -1` and the pattern occurs nowhere.
- Python's `%` with a positive right operand is never negative, and neither is Dafny's. So `t %= q` and `hash(key) % self.size` carry over unchanged. The `if t < 0: t += q` branch of Rabin–Karp is proved unreachable.
- Python's built-in `hash` is not modelled. Every hash-table operation takes it as a parameter `hash: K -> int`: a fixed but arbitrary function.
- Python mutates the table and the `[key, value]` pair lists in place. Here each operation returns a new `Table` value, together with the Python return value.
- The table's abstract value is `Contents(t)`, a `map<K, V>` built from the buckets without using the hash. In a valid table, `get` reads this map. `insert` is map update and `delete` is map removal.
- Binary search works on `seq<int>`. Python accepts any list, so the method has no sortedness precondition. The iteration bound and "the result is an element at least the target" hold for every array. The lower-bound characterisation is stated for sorted arrays.

Behaviours of the code worth knowing:

- `build_shift_table` (`task_3.py:9-11`) keeps the loop's value for the last character when that character also occurs earlier; `setdefault` writes `m` only for a last character seen nowhere else. So `"ABAB"` gives `{A: 1, B: 2}` (`ShiftTableExample`).
- The code faults on some inputs:
  - `build_shift_table` raises on an empty pattern.
  - `kmp_search` raises on an empty pattern when the text is non-empty.
  - `rabin_karp_search` indexes past the end of the text when the pattern is longer.

  These inputs are excluded by preconditions (see "Left out").
- The fallback `upper_bound = arr[left]` in `binary_search` (`task_2.py:18-19`) can never run, for any array, sorted or not. The loop always ends with `left == right + 1`, and `upper_bound` is `None` only when `right` never moved. The model proves this branch dead with `assert false`.

## Model

| member | source | states |
|---|---|---|
| `BoyerMoore.TableAfter` | task_3.py:9-10 | after the loop has visited the first `count` characters, the table's keys are exactly those characters, and each maps to `m - 1` minus the index of its last visited occurrence (later occurrences overwrite earlier ones) |
| `BoyerMoore.BuildShiftTable` | task_3.py:6-12 | the table's keys are exactly the pattern's characters, and every shift in it lies in `[1, m]` |
| `BoyerMoore.ShiftTableContents` | task_3.py:6-12 | the table's keys are exactly the pattern's characters; a character occurring before the last position maps to `m - 1 - (its last index there)`; the last character maps to `m` when it does not occur earlier; every value lies in `[1, m]` |
| `BoyerMoore.ShiftTableExample` | task_3.py:6-12 | for `"ABAB"` the table is `{A: 1, B: 2}`: `setdefault` does not overwrite `B` |
| `BoyerMoore.Shift` | task_3.py:27 | the lookup `shift_table.get(c, len(pattern))`: when every entry of the table lies in `[1, m]`, so does the shift |
| `BoyerMoore.ShiftBounds` | task_3.py:27 | the shift looked up with default `m` lies in `[1, m]`, and is at most `d` for a character that sits `d` places before the pattern's end |
| `BoyerMoore.ShiftSkipsWindow` | task_3.py:27 | a start `k` with `i < k < i + shift` cannot be an occurrence: it would align the text character under the window's last position with a different pattern character |
| `BoyerMoore.ShiftIsSafe` | task_3.py:27 | the shift taken after the window at `i` is between 1 and `m`, and no start strictly between `i` and `i + shift` is an occurrence |
| `BoyerMoore.CompareFromRight` | task_3.py:19-22 | the right-to-left comparison ends at `-1` exactly when the window at `i` equals the pattern; otherwise it stops at a mismatch, and every position to its right matches |
| `BoyerMoore.BoyerMooreSearch` | task_3.py:14-29 | for a non-empty pattern, returns the least start of an occurrence, or `-1` exactly when there is none (in particular when the pattern is longer than the text); a returned `r` satisfies `text[r..r+m] == pattern` |
| `Kmp.BorderOfBorder` | task_3.py:44-45 | a border of `pattern[..len]` shorter than another border is a border of that border, which is why `length = lps[length - 1]` loses no candidate |
| `Kmp.ComputeLps` | task_3.py:33-50 | the table has length `m`, `lps[0] == 0`, `lps[i] <= i`, and `lps[i]` is the length of the longest proper prefix of `pattern[..i+1]` that is also its suffix |
| `Kmp.FallbackSkipsNoMatch` | task_3.py:64-65 | after a mismatch at `j > 0`, falling back to `j = lps[j-1]` skips no start at which the pattern occurs |
| `Kmp.KmpSearch` | task_3.py:52-72 | for a non-empty pattern, returns the least start of an occurrence, or `-1` exactly when there is none (in particular when the pattern is longer than the text); the loop keeps `0 <= j < M`, `j <= i` and `main_string[i-j..i] == pattern[..j]` |
| `RabinKarp.HornerIsPositional` | task_3.py:85-87 | the left-to-right accumulation `x * 256 + ord(c)` computes the positional sum `Σ ord(s[k]) * 256^(len(s)-1-k)` |
| `RabinKarp.HashAppend` | task_3.py:85-87 | one step `(256 * x + ord(c)) % 101` of the first loop, which reduces after every character, keeps `x` equal to the unreduced left-to-right value of the characters seen so far, modulo 101 |
| `RabinKarp.FirstHashes` | task_3.py:84-87 | the first loop, reducing modulo 101 after every character, ends with the hashes of the pattern and of the text's first window equal to their unreduced left-to-right values modulo 101 |
| `RabinKarp.RollingHashIsDirect` | task_3.py:81-97 | with `h = 256^(m-1) % 101`, the rolling update of the hash of one window is the direct hash of the next window |
| `RabinKarp.RollWindow` | task_3.py:94-97 | the update from the window at `s` to the window at `s + 1` yields a value in `[0, 101)` equal to the direct hash of the next window; the `t < 0` correction never fires |
| `RabinKarp.RabinKarpSearch` | task_3.py:76-98 | for `1 <= m <= n`, returns the least start of an occurrence, or `-1` exactly when there is none; a start is returned only when its window equals the pattern, so a hash collision is never a false positive |
| `SearchAgreement.SearchAll` | task_3.py:14-98 | for `1 <= m <= n`, the three matchers return the same value, and it is the first occurrence or `-1` |
| `SearchAgreement.SearchLongPattern` | task_3.py:14-72 | when the pattern is longer than the text, Boyer–Moore and KMP both return `-1` |
| `SearchAgreement.ExampleFound` | task_3.py:14-98 | `"ABABCABAB"` first occurs in `"ABABDABACDABABCABAB"` at index 10 (the reference search `FirstOccurrence` returns 10); `SearchExampleFound` uses this to fix all three matchers' results |
| `SearchAgreement.ExampleNotFound` | task_3.py:14-98 | `"xyz"` does not occur in `"hello world"` (`FirstOccurrence` returns `-1`); `SearchExampleNotFound` uses this to fix all three matchers' results |
| `SearchAgreement.SearchExampleFound` | task_3.py:14-98 | Boyer–Moore, KMP and Rabin–Karp each return 10 for `"ABABCABAB"` in `"ABABDABACDABABCABAB"` |
| `SearchAgreement.SearchExampleNotFound` | task_3.py:14-98 | Boyer–Moore, KMP and Rabin–Karp each return `-1` for `"xyz"` in `"hello world"` |
| `ChainedHashTable.NewTable` | task_1.py:2-4 | a new table has exactly `size` buckets |
| `ChainedHashTable.NewTableIsEmpty` | task_1.py:2-4 | a new table satisfies the table invariant, its key/value map is empty, and `get` finds nothing in it |
| `ChainedHashTable.HashFunction` | task_1.py:6-7 | the bucket index of a key lies in `[0, size)` |
| `ChainedHashTable.Get` | task_1.py:21-26 | `get(key)` finds a value exactly when the key's bucket holds a pair with that key, and the value it returns is paired with the key in that bucket |
| `ChainedHashTable.BucketGet` | task_1.py:21-26 | returns the value of the first pair whose key is `key`, or `None` when there is no such pair |
| `ChainedHashTable.BucketPut` | task_1.py:13-18 | overwrites the value of the first pair with `key` in place, or appends `[key, value]` when there is none |
| `ChainedHashTable.BucketRemove` | task_1.py:30-34 | removes exactly the first pair with `key` and reports `True`, or leaves the bucket unchanged and reports `False` |
| `ChainedHashTable.Insert` | task_1.py:9-19 | always returns `True`; keeps `size` buckets; only the key's bucket changes; for an existing key the bucket length is unchanged, and for a new key exactly one pair is appended |
| `ChainedHashTable.Delete` | task_1.py:28-34 | returns `True` exactly when `get(key)` finds the key; otherwise the table is unchanged; only the key's bucket changes, and it loses one pair |
| `ChainedHashTable.InsertThenGet` | task_1.py:9-26 | after `insert(k, v)`, `get(k)` returns `v` |
| `ChainedHashTable.InsertFrame` | task_1.py:9-26 | `insert(k, _)` leaves `get(k')` unchanged for every `k' != k` |
| `ChainedHashTable.DeleteThenGet` | task_1.py:21-34 | in a valid table, after `delete(k)`, `get(k)` returns `None` |
| `ChainedHashTable.DeleteFrame` | task_1.py:21-34 | `delete(k)` leaves `get(k')` unchanged for every `k' != k` |
| `ChainedHashTable.ValidKeysAreUnique` | task_1.py:9-19 | in a valid table, two stored pairs with the same key are the same pair: no key appears twice anywhere |
| `ChainedHashTable.InsertPreservesValid` | task_1.py:9-19 | `insert` keeps every pair in the bucket its key hashes to, and every bucket free of repeated keys |
| `ChainedHashTable.DeletePreservesValid` | task_1.py:28-34 | `delete` keeps every pair in the bucket its key hashes to, and every bucket free of repeated keys |
| `ChainedHashTable.GetIsContents` | task_1.py:21-26 | in a valid table, `get(k)` is the lookup of `k` in the table's key/value map |
| `ChainedHashTable.InsertContents` | task_1.py:9-19 | in a valid table, `insert(k, v)` turns the table's map `M` into `M[k := v]` |
| `ChainedHashTable.DeleteContents` | task_1.py:28-34 | in a valid table, `delete(k)` turns the table's map `M` into `M - {k}` |
| `UpperBoundSearch.HalvingSavesAStep` | task_2.py:8-16 | each iteration leaves a range of at most half the size, so it uses up one step of the `floor(log2 n) + 1` budget |
| `UpperBoundSearch.Probe` | task_2.py:8-16 | one iteration keeps the loop's invariant (the searched range stays inside the array; the upper bound so far is the element just after it; on a sorted array everything before the range is below the target and everything after it at least the target) and leaves at most half of the range |
| `UpperBoundSearch.BoundaryIsLeastAtLeast` | task_2.py:7-21 | once the range is empty, the upper bound found, if any, is an element at least the target; on a sorted array it is the smallest such element, `None` exactly when every element is below the target, and the target itself when present |
| `UpperBoundSearch.BinarySearch` | task_2.py:1-23 | the iteration count is 0 for an empty array and otherwise in `[1, floor(log2 n) + 1]`; a returned upper bound is an element at least the target; for a sorted array it is `None` exactly when every element is below the target, and otherwise the smallest element at least the target (the target itself when present) |

## Left out

- The benchmark code in `task_3.py:102-139` (`measure_time`, `timeit`, random slicing of substrings, file reads, printing) and the `main()` demos of `task_1.py:36-46` and `task_2.py:25-34`. These are timing, randomness and I/O; none of them is part of the algorithms.
- Empty patterns. Every matcher requires `|pattern| >= 1`, because the three disagree there: `build_shift_table` raises, `kmp_search` raises on a non-empty text (and returns `-1` on an empty one), and `rabin_karp_search` returns 0 after computing `h` as a float.
- `RabinKarp.RabinKarpSearch`: requires `|pattern| <= |text|`. `rabin_karp_search` raises `IndexError` at `task_3.py:87` otherwise, so nothing is claimed for those inputs.
- Key equality. Keys are compared with Dafny's `==`, which is an equivalence, and `hash` is a function of the key, so equal keys always hash alike. Python compares keys with their own `__eq__`: a NaN key is not equal to itself, so repeated `insert(nan, v)` appends new pairs and `get(nan)` returns `None`, and keys whose `__eq__` and `__hash__` disagree can sit in the wrong bucket. Such keys are not represented, and the insert, get and delete properties are claimed only for keys that compare by an equivalence agreeing with `hash`.
- Python's `hash` and its per-process randomisation of string hashes. The hash is a parameter, so every property holds for every fixed hash function.
- Unhashable keys. `hash(key)` raises `TypeError` for a key such as a list (`task_1.py:7`). The parameter `hash: K -> int` is total, so keys on which `hash` raises are not represented.
- `HashTable(size)` with `size <= 0`. Every table operation requires `size > 0`. With size 0, `hash_function` divides by zero. With a negative size, `range(size)` builds no buckets, `hash(key) % size` lies in `(size, 0]`, and every `insert`, `get` and `delete` raises `IndexError` (`task_1.py:4`, `7`, `13`, `23`, `30`). Neither error path is modelled.
- The ambiguity of `get` returning `None` for a stored `None`. `get` returns an `Option`, so the two cases stay distinct.
- In-place mutation and aliasing of the table's lists. Operations return new values.
- Floating-point values in the `task_2.py` demo array. Binary search works over `int`.
- Characters: a Dafny `char` is a Unicode scalar value, so Python strings that contain lone surrogate code points are not represented.
