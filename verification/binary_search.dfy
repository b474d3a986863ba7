/**
  Binary search that reports the smallest element at least the target (the
  "upper bound") together with the number of halving steps it took.
 */
module UpperBoundSearch {
  import opened Wrappers

  predicate Sorted(arr: seq<int>) {
    forall a, b :: 0 <= a < b < |arr| ==> arr[a] <= arr[b]
  }

  function Pow2(e: nat): (r: nat)
    ensures r >= 1
  {
    if e == 0 then 1 else 2 * Pow2(e - 1)
  }

  /** The floor of the base-2 logarithm of `n`. */
  function Log2Floor(n: int): (r: nat)
    requires n >= 1
    ensures Pow2(r) <= n < 2 * Pow2(r)
  {
    if n == 1 then 0 else 1 + Log2Floor(n / 2)
  }

  /** The most loop iterations a range of `size` elements can take: its bit length. */
  function MaxSteps(size: int): nat {
    if size <= 0 then 0 else 1 + MaxSteps(size / 2)
  }

  lemma {:induction false} MaxStepsIsLog2FloorPlusOne(size: int)
    requires size >= 1
    ensures MaxSteps(size) == Log2Floor(size) + 1
  {
    if size > 1 {
      MaxStepsIsLog2FloorPlusOne(size / 2);
    }
  }

  lemma {:induction false} MaxStepsMonotonic(a: int, b: int)
    requires a <= b
    ensures MaxSteps(a) <= MaxSteps(b)
    decreases b
  {
    if a > 0 {
      MaxStepsMonotonic(a / 2, b / 2);
    }
  }

  /** Halving a range of `size >= 1` elements (or less) costs one step of the bound. */
  lemma HalvingSavesAStep(size: int, size': int)
    requires size >= 1 && 0 <= size' <= size / 2
    ensures MaxSteps(size') + 1 <= MaxSteps(size)
  {
    MaxStepsMonotonic(size', size / 2);
  }

  /** `v` is the smallest element of `arr` that is at least `target`, or `None` if there is none. */
  ghost predicate IsLeastAtLeast(arr: seq<int>, target: int, v: Option<int>) {
    match v
    case None => forall k :: 0 <= k < |arr| ==> arr[k] < target
    case Some(x) =>
      && x in arr && target <= x
      && forall k :: 0 <= k < |arr| && target <= arr[k] ==> x <= arr[k]
  }

  /** Every element before index `left` is below `target`. */
  ghost predicate AllBelow(arr: seq<int>, target: int, left: int) {
    forall k :: 0 <= k < left && k < |arr| ==> arr[k] < target
  }

  /** Every element after index `right` is at least `target`. */
  ghost predicate AllAtLeastAfter(arr: seq<int>, target: int, right: int) {
    forall k :: right < k < |arr| && 0 <= k ==> target <= arr[k]
  }

  lemma SortedBelowMid(arr: seq<int>, target: int, mid: int)
    requires Sorted(arr) && 0 <= mid < |arr| && arr[mid] < target
    ensures AllBelow(arr, target, mid + 1)
  {
  }

  lemma SortedAboveMid(arr: seq<int>, target: int, mid: int)
    requires Sorted(arr) && 0 <= mid < |arr| && target <= arr[mid]
    ensures AllAtLeastAfter(arr, target, mid - 1)
  {
  }

  /**
    What the loop keeps: `[left, right]` is the part of the array still to
    search; `upperBound` holds the element just after it, once one has been
    probed; on a sorted array everything before `left` is below `target` and
    everything after `right` is at least `target`.
   */
  ghost predicate SearchState(arr: seq<int>, target: int, left: int, right: int, upperBound: Option<int>) {
    && 0 <= left <= right + 1 <= |arr|
    && (upperBound.None? <==> right == |arr| - 1)
    && (upperBound.Some? ==> upperBound.value == arr[right + 1] && target <= arr[right + 1])
    && (Sorted(arr) ==> AllBelow(arr, target, left))
    && (Sorted(arr) ==> AllAtLeastAfter(arr, target, right))
  }

  /**
    What the loop's invariant gives once `left == right + 1`: the upper bound
    found so far, if any, is an element at least `target`; on a sorted array
    it is the smallest such element, and the target itself when present.
   */
  lemma BoundaryIsLeastAtLeast(arr: seq<int>, target: int, left: int, right: int, upperBound: Option<int>)
    requires SearchState(arr, target, left, right, upperBound) && left == right + 1
    ensures upperBound.Some? ==> upperBound.value in arr && target <= upperBound.value
    ensures Sorted(arr) ==> IsLeastAtLeast(arr, target, upperBound)
    ensures Sorted(arr) && target in arr ==> upperBound == Some(target)
  {
    if Sorted(arr) && target in arr {
      var k :| 0 <= k < |arr| && arr[k] == target;
      assert IsLeastAtLeast(arr, target, upperBound);
    }
  }

  /**
    One iteration of the loop: probe the middle of `[left, right]` and keep
    the half that can still hold the upper bound, which has at most half the
    elements.
   */
  method Probe(arr: seq<int>, target: int, left: int, right: int, upperBound: Option<int>)
    returns (left': int, right': int, upperBound': Option<int>)
    requires SearchState(arr, target, left, right, upperBound) && left <= right
    ensures SearchState(arr, target, left', right', upperBound')
    ensures right' - left' + 1 <= (right - left + 1) / 2
    ensures left' == left || right' == right
  {
    var mid := left + (right - left) / 2;
    var midValue := arr[mid];
    if midValue < target {
      if Sorted(arr) {
        SortedBelowMid(arr, target, mid);
      }
      left', right', upperBound' := mid + 1, right, upperBound;
    } else {
      if Sorted(arr) {
        SortedAboveMid(arr, target, mid);
      }
      left', right', upperBound' := left, mid - 1, Some(midValue);
    }
  }

  /**
    `binary_search`: on a sorted array the upper bound is the smallest element
    at least `target` (the target itself when present) or `None` when every
    element is smaller; on any array the iteration count is 0 for the empty
    array and otherwise between 1 and `floor(log2(len(arr))) + 1`.
   */
  method BinarySearch(arr: seq<int>, target: int) returns (iterations: nat, upperBound: Option<int>)
    ensures |arr| == 0 ==> iterations == 0
    ensures |arr| > 0 ==> 1 <= iterations <= Log2Floor(|arr|) + 1
    ensures upperBound.Some? ==> upperBound.value in arr && target <= upperBound.value
    ensures Sorted(arr) ==> IsLeastAtLeast(arr, target, upperBound)
    ensures Sorted(arr) && target in arr ==> upperBound == Some(target)
  {
    var left, right := 0, |arr| - 1;
    iterations := 0;
    upperBound := None;
    while left <= right
      invariant SearchState(arr, target, left, right, upperBound)
      invariant iterations + MaxSteps(right - left + 1) <= MaxSteps(|arr|)
      invariant iterations == 0 ==> left == 0 && right == |arr| - 1
      decreases right - left
    {
      iterations := iterations + 1;
      ghost var size := right - left + 1;
      left, right, upperBound := Probe(arr, target, left, right, upperBound);
      HalvingSavesAStep(size, right - left + 1);
    }
    // `binary_search`'s fallback `upper_bound = arr[left]` can never run: the loop
    // ends with left == right + 1, and None means right == |arr| - 1, so
    // left == |arr|. Its value is read outside the dead branch, where the
    // index check does not rest on the branch's impossible condition.
    var fallback := if left < |arr| then Some(arr[left]) else None;
    if upperBound.None? && left < |arr| {
      assert false;
      upperBound := fallback;
    }
    BoundaryIsLeastAtLeast(arr, target, left, right, upperBound);
    if |arr| > 0 {
      MaxStepsIsLog2FloorPlusOne(|arr|);
    }
  }
}
